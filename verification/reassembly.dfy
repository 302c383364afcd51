/**
  Reassembly as a function of the fragments pushed: what is held, what is missing, and why
  neither order nor repetition matters.
 */
module Reassembly {
  import opened Wire
  import opened Pieces

  /** What a buffer keeps of a received fragment: its signed number and its payload. */
  datatype Part = Part(fid: int, payload: bytes)

  /** The place a fragment number stands for. */
  function Place(fid: int): int {
    (if fid < 0 then -fid else fid) - 1
  }

  /** One push: a repeated number replaces what was there. */
  function Push(got: map<int, Part>, p: Part): map<int, Part> {
    got[Place(p.fid) := p]
  }

  function PushAll(got: map<int, Part>, ps: seq<Part>): map<int, Part>
    decreases |ps|
  {
    if ps == [] then got else PushAll(Push(got, ps[0]), ps[1..])
  }

  /** The number of the first fragment missing from place i on, or 0 at a final fragment. */
  function WantedFrom(got: map<int, Part>, i: nat): int
    decreases |got| - i
  {
    if i >= |got| || i !in got then i + 1
    else if got[i].fid < 0 then 0
    else WantedFrom(got, i + 1)
  }

  function Wanted(got: map<int, Part>): int {
    WantedFrom(got, 0)
  }

  /** Payload bytes held at places below n; places start at -1, where a fragment numbered 0 goes. */
  function SumTo(got: map<int, Part>, n: int): nat
    decreases n + 1
  {
    if n < 0 then 0
    else SumTo(got, n - 1) + (if n - 1 in got then |got[n - 1].payload| else 0)
  }

  /** Every place an int16 can stand for is below this. */
  const PLACES := 0x8000

  /** All payload bytes held. */
  function Held(got: map<int, Part>): nat {
    SumTo(got, PLACES)
  }

  lemma {:induction false} SumPush(got: map<int, Part>, p: Part, n: int)
    requires Place(p.fid) >= -1
    ensures var k := Place(p.fid);
      SumTo(Push(got, p), n)
        == SumTo(got, n) + (if k < n then |p.payload| - (if k in got then |got[k].payload| else 0) else 0)
    decreases n + 1
  {
    if n >= 0 {
      SumPush(got, p, n - 1);
    }
  }

  /** A push adds its payload to what is held, less the payload it replaces. */
  lemma HeldPush(got: map<int, Part>, p: Part)
    requires -0x8000 <= p.fid < 0x8000
    ensures var k := Place(p.fid);
      Held(Push(got, p)) == Held(got) + |p.payload| - (if k in got then |got[k].payload| else 0)
  {
    hide SumTo;
    SumPush(got, p, PLACES);
  }

  lemma {:induction false} NoneHeld(n: int)
    ensures SumTo(map[], n) == 0
    decreases n + 1
  {
    if n >= 0 {
      NoneHeld(n - 1);
    }
  }

  // ---------------------------------------------------------------- one object

  /** The signed number of piece i of n. */
  function Fid(i: nat, n: nat): int {
    if i + 1 == n then -(n as int) else i + 1
  }

  /** The n fragments of an object with these payloads. */
  function PartsOf(ps: seq<bytes>): seq<Part> {
    seq(|ps|, i requires 0 <= i < |ps| => Part(Fid(i, |ps|), ps[i]))
  }

  /** Only fragments of the object are held, each at its own place. */
  ghost predicate Among(got: map<int, Part>, ps: seq<bytes>) {
    forall k :: k in got ==> 0 <= k < |ps| && got[k] == PartsOf(ps)[k]
  }

  /** What is held are exactly the fragments pushed, whatever their order and however often. */
  lemma {:induction false} PushedIsHeld(got: map<int, Part>, ps: seq<bytes>, pushed: seq<Part>)
    requires Among(got, ps) && forall p :: p in pushed ==> p in PartsOf(ps)
    ensures Among(PushAll(got, pushed), ps)
    ensures forall k :: k in PushAll(got, pushed) <==> k in got || (0 <= k < |ps| && PartsOf(ps)[k] in pushed)
    decreases |pushed|
  {
    hide PartsOf, Fid;
    if pushed != [] {
      var p := pushed[0];
      assert p in pushed;
      var i :| 0 <= i < |PartsOf(ps)| && PartsOf(ps)[i] == p;
      PlaceOfPart(ps, i);
      forall k | 0 <= k < |PartsOf(ps)| ensures PartsOf(ps)[k] == p <==> k == i {
        PlaceOfPart(ps, k);
      }
      PushedIsHeld(Push(got, p), ps, pushed[1..]);
      assert forall x :: x in pushed <==> x == p || x in pushed[1..];
    }
  }

  lemma PlaceOfPart(ps: seq<bytes>, i: nat)
    requires i < |PartsOf(ps)|
    ensures |PartsOf(ps)| == |ps| && Place(PartsOf(ps)[i].fid) == i
  {
  }

  /** The order of arrival and repetitions make no difference to what is held. */
  lemma OrderDoesNotMatter(ps: seq<bytes>, pushed1: seq<Part>, pushed2: seq<Part>)
    requires (forall p :: p in pushed1 ==> p in PartsOf(ps)) && forall p :: p in pushed1 <==> p in pushed2
    ensures PushAll(map[], pushed1) == PushAll(map[], pushed2)
  {
    hide PartsOf, PushAll;
    PushedIsHeld(map[], ps, pushed1);
    PushedIsHeld(map[], ps, pushed2);
    var g1, g2 := PushAll(map[], pushed1), PushAll(map[], pushed2);
    forall k ensures (k in g1 <==> k in g2) && (k in g1 ==> g1[k] == g2[k]) {
    }
    SameMap(g1, g2);
  }

  lemma SameMap<K, V>(m: map<K, V>, n: map<K, V>)
    requires forall k :: (k in m <==> k in n) && (k in m ==> m[k] == n[k])
    ensures m == n
  {
  }

  function Below(n: nat): (s: set<int>)
    ensures |s| == n && forall k :: k in s <==> 0 <= k < n
  {
    if n == 0 then {} else Below(n - 1) + {n - 1}
  }

  /** With the first i places held there are at least i of them. */
  lemma AtLeast(got: map<int, Part>, i: nat)
    requires forall k :: 0 <= k < i ==> k in got
    ensures |got| >= i
  {
    assert Below(i) <= got.Keys;
    Subset(Below(i), got.Keys);
  }

  lemma {:induction false} Subset<T>(s: set<T>, t: set<T>)
    requires s <= t
    ensures |s| <= |t|
    decreases |s|
  {
    if s != {} {
      var x :| x in s;
      Subset(s - {x}, t - {x});
    }
  }

  lemma Interval(s: set<int>, n: nat)
    requires forall k :: k in s ==> 0 <= k < n
    ensures |s| <= n
  {
    assert s <= Below(n);
    Subset(s, Below(n));
  }

  /**
    A buffer holding fragments of one object wants nothing exactly when it holds them all,
    and otherwise wants the first one missing.
   */
  lemma WantedExactly(got: map<int, Part>, ps: seq<bytes>)
    requires Among(got, ps) && ps != []
    ensures Wanted(got) == 0 <==> forall k :: 0 <= k < |ps| ==> k in got
    ensures Wanted(got) != 0 ==>
      1 <= Wanted(got) <= |ps| && Wanted(got) - 1 !in got && forall k :: 0 <= k < Wanted(got) - 1 ==> k in got
  {
    WantedFromExactly(got, ps, 0);
  }

  lemma {:induction false} WantedFromExactly(got: map<int, Part>, ps: seq<bytes>, i: nat)
    requires Among(got, ps) && i < |ps| && forall k :: 0 <= k < i ==> k in got
    ensures var w := WantedFrom(got, i);
      if w == 0 then forall k :: 0 <= k < |ps| ==> k in got
      else i < w <= |ps| && w - 1 !in got && forall k :: 0 <= k < w - 1 ==> k in got
    decreases |ps| - i
  {
    if i in got {
      AtLeast(got, i + 1);
      if i + 1 < |ps| {
        WantedFromExactly(got, ps, i + 1);
      }
    }
  }

  /** Of an object with all fragments held, the payloads in order. */
  lemma AllHeld(got: map<int, Part>, ps: seq<bytes>)
    requires Among(got, ps) && (forall k :: 0 <= k < |ps| ==> k in got)
    ensures |got| == |ps| && forall k :: k in got <==> 0 <= k < |ps|
    ensures forall k :: 0 <= k < |ps| ==> got[k].payload == ps[k]
  {
    AtLeast(got, |ps|);
    Interval(got.Keys, |ps|);
    assert |got.Keys| == |got|;
  }

  /** The payload bytes of the first n pieces that are among the parts pushed, each counted once. */
  function ArrivedSize(ps: seq<bytes>, pushed: seq<Part>, n: nat): nat
    requires n <= |ps|
  {
    if n == 0 then 0
    else ArrivedSize(ps, pushed, n - 1) + (if PartsOf(ps)[n - 1] in pushed then |ps[n - 1]| else 0)
  }

  /** The size after any pushes is the size of the distinct payloads that arrived. */
  lemma HeldIsArrived(ps: seq<bytes>, pushed: seq<Part>)
    requires |ps| <= MAX16 && forall p :: p in pushed ==> p in PartsOf(ps)
    ensures Held(PushAll(map[], pushed)) == ArrivedSize(ps, pushed, |ps|)
  {
    hide PushAll, SumTo, ArrivedSize;
    PushedIsHeld(map[], ps, pushed);
    SumIsArrived(PushAll(map[], pushed), ps, pushed, |ps|);
    NothingBeyond(PushAll(map[], pushed), |ps|, PLACES);
  }

  lemma {:induction false} SumIsArrived(g: map<int, Part>, ps: seq<bytes>, pushed: seq<Part>, n: nat)
    requires Among(g, ps) && n <= |ps|
    requires forall k :: k in g <==> 0 <= k < |ps| && PartsOf(ps)[k] in pushed
    ensures SumTo(g, n) == ArrivedSize(ps, pushed, n)
  {
    if n > 0 {
      SumIsArrived(g, ps, pushed, n - 1);
      assert PartsOf(ps)[n - 1].payload == ps[n - 1];
    } else {
      assert SumTo(g, -1) == 0;
    }
  }

  lemma {:induction false} NothingBeyond(g: map<int, Part>, m: nat, n: nat)
    requires m <= n && forall k :: k in g ==> k < m
    ensures SumTo(g, n) == SumTo(g, m)
  {
    if m < n {
      NothingBeyond(g, m, n - 1);
    }
  }
}
