/**
  Lists of byte strings read in a row: the view of the payloads of a fragmented buffer.
 */
module Pieces {
  import opened Wire

  function Concat(ps: seq<bytes>): bytes {
    if ps == [] then [] else ps[0] + Concat(ps[1..])
  }

  /** What lies behind position pos of piece i. */
  function Rest(ps: seq<bytes>, i: nat, pos: nat): bytes {
    if i < |ps| && pos <= |ps[i]| then ps[i][pos..] + Concat(ps[i + 1..]) else []
  }

  /** k pieces of a bytes each. */
  function Full(k: nat, a: nat): nat {
    if k == 0 then 0 else a + Full(k - 1, a)
  }

  lemma {:induction false} ConcatAppend(ps: seq<bytes>, qs: seq<bytes>)
    ensures Concat(ps + qs) == Concat(ps) + Concat(qs)
  {
    if ps == [] {
      assert ps + qs == qs;
    } else {
      assert (ps + qs)[1..] == ps[1..] + qs;
      ConcatAppend(ps[1..], qs);
    }
  }

  lemma ConcatOne(p: bytes)
    ensures Concat([p]) == p
  {
    assert Concat([p]) == p + Concat([]);
  }

  lemma ConcatHead(p: bytes, ps: seq<bytes>)
    ensures Concat([p] + ps) == p + Concat(ps)
  {
    assert ([p] + ps)[1..] == ps;
  }

  lemma ConcatSplit(ps: seq<bytes>, i: nat)
    requires i < |ps|
    ensures Concat(ps) == Concat(ps[..i]) + ps[i] + Concat(ps[i + 1..])
  {
    hide Concat;
    Sundered(ps, i);
    ConcatAppend(ps[..i], ps[i..]);
    ConcatHead(ps[i], ps[i + 1..]);
  }

  lemma Sundered<T>(s: seq<T>, i: nat)
    requires i < |s|
    ensures s == s[..i] + s[i..] && s[i..] == [s[i]] + s[i + 1..]
  {
  }

  /** What lies behind a position is the end of the whole. */
  lemma RestIsTail(ps: seq<bytes>, i: nat, pos: nat)
    requires i < |ps| && pos <= |ps[i]|
    ensures |Rest(ps, i, pos)| <= |Concat(ps)| && Rest(ps, i, pos) == Concat(ps)[|Concat(ps)| - |Rest(ps, i, pos)|..]
  {
    hide Concat;
    ConcatSplit(ps, i);
    EndOf(Concat(ps[..i]), ps[i], Concat(ps[i + 1..]), pos);
  }

  lemma EndOf(a: bytes, s: bytes, z: bytes, pos: nat)
    requires pos <= |s|
    ensures (a + s + z)[|a| + pos..] == s[pos..] + z
  {
  }

  /** Reading k bytes of a piece. */
  lemma RestTake(ps: seq<bytes>, i: nat, pos: nat, k: nat)
    requires i < |ps| && pos + k <= |ps[i]|
    ensures Rest(ps, i, pos) == ps[i][pos..pos + k] + Rest(ps, i, pos + k)
  {
    hide Concat;
    TwoParts(ps[i], pos, k);
    var z := Concat(ps[i + 1..]);
    assert ps[i][pos..] + z == ps[i][pos..pos + k] + (ps[i][pos + k..] + z);
  }

  lemma TwoParts(s: bytes, pos: nat, k: nat)
    requires pos + k <= |s|
    ensures s[pos..] == s[pos..pos + k] + s[pos + k..]
  {
  }

  /** The end of a piece is the start of the next. */
  lemma RestNext(ps: seq<bytes>, i: nat)
    requires i + 1 < |ps|
    ensures Rest(ps, i, |ps[i]|) == Rest(ps, i + 1, 0)
  {
    assert ps[i + 1..][1..] == ps[i + 2..];
  }

  lemma RestOfAll(ps: seq<bytes>)
    requires |ps| > 0
    ensures Rest(ps, 0, 0) == Concat(ps)
  {
  }

  lemma ConcatLast(ps: seq<bytes>)
    requires |ps| > 0
    ensures Concat(ps) == Concat(ps[..|ps| - 1]) + ps[|ps| - 1]
  {
    hide Concat;
    var n := |ps| - 1;
    assert ps == ps[..n] + [ps[n]];
    ConcatAppend(ps[..n], [ps[n]]);
    ConcatOne(ps[n]);
  }

  lemma ConcatGrow(ps: seq<bytes>, x: bytes)
    requires |ps| > 0
    ensures Concat(ps[|ps| - 1 := ps[|ps| - 1] + x]) == Concat(ps) + x
  {
    hide Concat;
    var n := |ps| - 1;
    var qs := ps[n := ps[n] + x];
    ConcatLast(ps);
    ConcatLast(qs);
    assert qs[..n] == ps[..n];
  }

  /** Appending to the last piece. */
  lemma GrowLast(ps: seq<bytes>, x: bytes, i: nat, pos: nat)
    requires |ps| > 0 && i < |ps| && pos <= |ps[i]|
    ensures var n := |ps| - 1; var qs := ps[n := ps[n] + x];
      Concat(qs) == Concat(ps) + x && Rest(qs, i, pos) == Rest(ps, i, pos) + x
  {
    hide Concat;
    var n := |ps| - 1;
    var qs := ps[n := ps[n] + x];
    ConcatGrow(ps, x);
    if i < n {
      GrowTail(ps, x, i);
    } else {
      assert qs[n][pos..] == ps[n][pos..] + x;
      ConcatNone(qs[n + 1..]);
      ConcatNone(ps[n + 1..]);
    }
  }

  lemma GrowTail(ps: seq<bytes>, x: bytes, i: nat)
    requires i < |ps| - 1
    ensures var n := |ps| - 1; Concat(ps[n := ps[n] + x][i + 1..]) == Concat(ps[i + 1..]) + x
  {
    hide Concat;
    var n := |ps| - 1;
    ConcatGrow(ps[i + 1..], x);
    assert ps[n := ps[n] + x][i + 1..] == ps[i + 1..][n - i - 1 := ps[n] + x];
  }

  lemma ConcatNone(ps: seq<bytes>)
    requires ps == []
    ensures Concat(ps) == []
  {
  }

  /** An empty piece behind the others. */
  lemma AddEmpty(ps: seq<bytes>, i: nat, pos: nat)
    ensures Concat(ps + [[]]) == Concat(ps)
    ensures i < |ps| && pos <= |ps[i]| ==> Rest(ps + [[]], i, pos) == Rest(ps, i, pos)
    ensures ps == [] ==> Rest(ps + [[]], 0, 0) == Rest(ps, 0, 0) == []
  {
    ConcatAppend(ps, [[]]);
    ConcatOne([]);
    if i < |ps| {
      assert (ps + [[]])[i + 1..] == ps[i + 1..] + [[]];
      ConcatAppend(ps[i + 1..], [[]]);
    }
  }

  /** A stretch of a stretch. */
  lemma Inner<T>(s: seq<T>, h: nat, n: nat, pos: nat, k: nat)
    requires h + n <= |s| && pos + k <= n
    ensures s[h + pos..h + pos + k] == s[h..h + n][pos..pos + k]
  {
    var l, r := s[h + pos..h + pos + k], s[h..h + n][pos..pos + k];
    assert forall i :: 0 <= i < k ==> l[i] == r[i];
  }

  lemma CutFront(u: bytes, a: bytes, z: bytes)
    requires u == a + z
    ensures |a| <= |u| && u[..|a|] == a && u[|a|..] == z
  {
  }

  function Put(s: bytes, pos: nat, x: bytes): bytes
    requires pos + |x| <= |s|
  {
    s[..pos] + x + s[pos + |x|..]
  }

  lemma PutMore(s: bytes, p: nat, a: bytes, c: byte)
    requires p + |a| + 1 <= |s|
    ensures |Put(s, p, a)| == |s| && Put(Put(s, p, a), p + |a|, [c]) == Put(s, p, a + [c])
  {
  }

  /** Bytes of a piece replaced are bytes of the whole replaced. */
  lemma PutInPiece(ps: seq<bytes>, i: nat, pos: nat, x: bytes)
    requires i < |ps| && pos + |x| <= |ps[i]|
    ensures var p := |Concat(ps[..i])| + pos;
      p + |x| <= |Concat(ps)| && Concat(ps[i := Put(ps[i], pos, x)]) == Put(Concat(ps), p, x)
  {
    hide Concat, Put;
    var q := Put(ps[i], pos, x);
    var qs := ps[i := q];
    ConcatSplit(ps, i);
    ConcatSplit(qs, i);
    assert qs[..i] == ps[..i] && qs[i + 1..] == ps[i + 1..];
    PutBetween(Concat(ps[..i]), ps[i], Concat(ps[i + 1..]), pos, x);
  }

  lemma PutBetween(a: bytes, s: bytes, z: bytes, pos: nat, x: bytes)
    requires pos + |x| <= |s|
    ensures Put(a + s + z, |a| + pos, x) == a + Put(s, pos, x) + z
  {
    var w := a + s + z;
    assert w[..|a| + pos] == a + s[..pos];
    assert w[|a| + pos + |x|..] == s[pos + |x|..] + z;
  }

  lemma {:induction false} FullStart(ps: seq<bytes>, i: nat, a: nat)
    requires i <= |ps| && forall j :: 0 <= j < i ==> |ps[j]| == a
    ensures |Concat(ps[..i])| == Full(i, a)
  {
    if i > 0 {
      FullStart(ps, i - 1, a);
      assert ps[..i] == ps[..i - 1] + [ps[i - 1]];
      ConcatAppend(ps[..i - 1], [ps[i - 1]]);
      ConcatOne(ps[i - 1]);
    }
  }

  lemma {:induction false} FullMonotone(i: nat, j: nat, a: nat)
    requires i <= j
    ensures Full(i, a) <= Full(j, a)
  {
    if i < j { FullMonotone(i, j - 1, a); }
  }

  /** The length of pieces that are all full but the last. */
  lemma FullLength(ps: seq<bytes>, a: nat)
    requires |ps| > 0 && forall j :: 0 <= j < |ps| - 1 ==> |ps[j]| == a
    ensures |Concat(ps)| == Full(|ps| - 1, a) + |ps[|ps| - 1]|
  {
    hide Concat, Full;
    ConcatLast(ps);
    FullStart(ps, |ps| - 1, a);
  }

  /** A place inside the whole is a place inside a piece. */
  lemma Locate(ps: seq<bytes>, i: nat, pos: nat, a: nat)
    requires |ps| > 0 && (forall j :: 0 <= j < |ps| - 1 ==> |ps[j]| == a) && |ps[|ps| - 1]| <= a
    requires pos < a && Full(i, a) + pos < |Concat(ps)|
    ensures i < |ps| && pos < |ps[i]| && |Concat(ps[..i])| == Full(i, a)
  {
    hide Concat;
    FullLength(ps, a);
    assert Full(|ps|, a) == a + Full(|ps| - 1, a);
    if i >= |ps| {
      FullMonotone(|ps|, i, a);
    } else {
      FullStart(ps, i, a);
    }
  }

  /** A payload cut into stretches of a bytes, the last one not empty. */
  function Chop(s: bytes, a: nat): seq<bytes>
    requires a >= 1
  {
    if |s| <= a then (if s == [] then [] else [s]) else [s[..a]] + Chop(s[a..], a)
  }

  /** Pieces that are full but for a last one that is not empty are the chopped whole. */
  lemma {:induction false} ChopIs(ps: seq<bytes>, a: nat)
    requires a >= 1 && ps != [] && (forall i :: 0 <= i < |ps| - 1 ==> |ps[i]| == a) && 1 <= |ps[|ps| - 1]| <= a
    ensures Chop(Concat(ps), a) == ps
  {
    hide Concat;
    if |ps| == 1 {
      ConcatOne(ps[0]);
      assert ps == [ps[0]];
    } else {
      var tail := Concat(ps[1..]);
      ChopIs(ps[1..], a);
      NotNone(ps[1..]);
      assert ps == [ps[0]] + ps[1..];
      ConcatHead(ps[0], ps[1..]);
      assert |ps[0]| == a;
      ChopFront(ps[0], tail, a);
    }
  }

  lemma ChopFront(p: bytes, tail: bytes, a: nat)
    requires |p| == a >= 1 && tail != []
    ensures Chop(p + tail, a) == [p] + Chop(tail, a)
  {
    assert (p + tail)[..a] == p && (p + tail)[a..] == tail;
  }

  lemma NotNone(ps: seq<bytes>)
    requires |ps| > 0 && ps[|ps| - 1] != []
    ensures Concat(ps) != []
  {
    hide Concat;
    ConcatLast(ps);
  }

  /**
    The MTU arithmetic: the pieces join to the whole, all but the last are full, and their
    number is the rounded-up quotient.
   */
  lemma {:induction false} ChopArithmetic(s: bytes, a: nat)
    requires a >= 1
    ensures var ps := Chop(s, a);
      Concat(ps) == s && (forall i :: 0 <= i < |ps| - 1 ==> |ps[i]| == a)
      && (ps != [] ==> 1 <= |ps[|ps| - 1]| <= a)
      && |ps| == (|s| + a - 1) / a
    decreases |s|
  {
    var ps := Chop(s, a);
    if s == [] {
      DivStep(a - 1, a);
    } else if |s| <= a {
      ConcatOne(s);
      DivStep(|s| - 1, a);
    } else {
      var u := s[a..];
      ChopArithmetic(u, a);
      DivStep(|u| + a - 1, a);
      assert ps[1..] == Chop(u, a);
      assert s == s[..a] + u;
    }
  }

  lemma DivStep(n: nat, a: nat)
    requires a >= 1
    ensures (n + a) / a == n / a + 1
    ensures n < a ==> n / a == 0
  {
    var q, r := n / a, n % a;
    assert n == q * a + r;
    assert n + a == (q + 1) * a + r;
    DivIs(n + a, a, q + 1, r);
    if n < a { DivIs(n, a, 0, n); }
  }

  lemma DivIs(n: nat, a: nat, q: nat, r: nat)
    requires a >= 1 && r < a && n == q * a + r
    ensures n / a == q
  {
    var p := n / a;
    assert n == p * a + n % a;
    Multiples(p, q, a);
    Multiples(q, p, a);
  }

  lemma {:induction false} Multiples(x: nat, y: nat, a: nat)
    ensures x < y ==> x * a + a <= y * a
    decreases y
  {
    if x < y {
      assert y * a == (y - 1) * a + a;
      Multiples(x, y - 1, a);
    }
  }
}
