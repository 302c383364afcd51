/**
  Looking for the magic word: the first occurrence, the tail worth keeping when there is
  none, and why five bytes can be skipped behind an occurrence.
 */
module Magic {
  import opened Wire

  predicate At(s: bytes, i: int) {
    0 <= i && i + |MAGIC| <= |s| && s[i..i + |MAGIC|] == MAGIC
  }

  /** bytes.Index for the magic word. */
  function Find(s: bytes): (r: int)
    ensures -1 <= r && (r >= 0 ==> r + |MAGIC| <= |s|)
    ensures r == -1 || (At(s, r) && forall j :: 0 <= j < r ==> !At(s, j))
    ensures r == -1 ==> forall j :: !At(s, j)
  {
    if |s| < |MAGIC| then -1
    else if s[..|MAGIC|] == MAGIC then 0
    else
      var r := Find(s[1..]);
      assert forall j :: j > 0 ==> (At(s, j) <==> At(s[1..], j - 1)) by {
        forall j | j > 0 ensures At(s, j) <==> At(s[1..], j - 1) {
          AtShift(s, 1, j - 1);
        }
      }
      if r < 0 then -1 else r + 1
  }

  /** The bytes that can still be the start of a magic word. */
  function Tail(s: bytes): bytes {
    if |s| <= 4 then s else s[|s| - 4..]
  }

  datatype Sought = Sought(found: bool, rest: bytes)

  /** From the first magic word on, or the tail when there is none. */
  function Seek(s: bytes): Sought {
    var p := Find(s);
    if p >= 0 then Sought(true, s[p..]) else Sought(false, Tail(s))
  }

  /** The magic word has no proper border: two occurrences never overlap. */
  lemma NoOverlap(s: bytes, i: int, j: int)
    requires At(s, i) && At(s, j) && i < j
    ensures j >= i + |MAGIC|
  {
    AtBytes(s, i);
    AtBytes(s, j);
  }

  lemma AtBytes(s: bytes, i: int)
    requires At(s, i)
    ensures s[i] == 84 && s[i + 1] == 83 && s[i + 2] == 83 && s[i + 3] == 68 && s[i + 4] == 86
  {
    var w := s[i..i + |MAGIC|];
    assert w[0] == s[i] && w[1] == s[i + 1] && w[2] == s[i + 2] && w[3] == s[i + 3] && w[4] == s[i + 4];
  }

  lemma AtShift(s: bytes, p: nat, j: int)
    requires p <= |s|
    ensures j >= 0 ==> (At(s[p..], j) <==> At(s, p + j))
  {
    if j >= 0 && p + j + |MAGIC| <= |s| {
      assert s[p..][j..j + |MAGIC|] == s[p + j..p + j + |MAGIC|];
    }
  }

  lemma AtAppend(s: bytes, t: bytes, j: int)
    ensures At(s, j) ==> At(s + t, j)
    ensures j + |MAGIC| <= |s| ==> (At(s, j) <==> At(s + t, j))
  {
    if 0 <= j && j + |MAGIC| <= |s| {
      assert (s + t)[j..j + |MAGIC|] == s[j..j + |MAGIC|];
    }
  }

  lemma FindIs(s: bytes, p: int)
    requires At(s, p) && forall j :: 0 <= j < p ==> !At(s, j)
    ensures Find(s) == p
  {
  }

  lemma FindAppend(s: bytes, t: bytes)
    requires Find(s) >= 0
    ensures Find(s + t) == Find(s)
  {
    var p := Find(s);
    AtAppend(s, t, p);
    forall j | 0 <= j < p ensures !At(s + t, j) {
      AtAppend(s, t, j);
    }
    FindIs(s + t, p);
  }

  /** Dropping what holds no start of a magic word does not change what is found. */
  lemma FindDrop(s: bytes, k: nat)
    requires k <= |s| && forall j :: 0 <= j < k ==> !At(s, j)
    ensures Find(s) == if Find(s[k..]) < 0 then -1 else k + Find(s[k..])
  {
    hide At, Find;
    var u := s[k..];
    forall j | j >= 0 ensures At(u, j) <==> At(s, k + j) {
      AtShift(s, k, j);
    }
    assert Find(s) >= 0 ==> At(u, Find(s) - k);
    if Find(u) >= 0 {
      assert At(s, k + Find(u));
      forall j | 0 <= j < k + Find(u) ensures !At(s, j) {
        if j >= k {
          assert !At(u, j - k);
        }
      }
      FindIs(s, k + Find(u));
    }
  }

  lemma SeekDrop(s: bytes, k: nat)
    requires k <= |s| && forall j :: 0 <= j < k ==> !At(s, j)
    requires |s| - k >= 4 || k == 0
    ensures Seek(s) == Seek(s[k..])
  {
    FindDrop(s, k);
    if Find(s) >= 0 {
      assert s[Find(s)..] == s[k..][Find(s[k..])..];
    } else if k > 0 {
      assert Tail(s) == Tail(s[k..]);
    }
  }

  lemma SeekFound(s: bytes)
    requires At(s, 0)
    ensures Seek(s) == Sought(true, s)
  {
    FindIs(s, 0);
  }

  /** A search that goes on with new data over what it kept finds what one search would. */
  lemma SeekAppend(s: bytes, t: bytes)
    ensures Seek(s + t) == Seek(Seek(s).rest + t)
  {
    var p := Find(s);
    if p >= 0 {
      FindAppend(s, t);
      assert (s + t)[p..] == s[p..] + t;
      AtShift(s, p, 0);
      AtAppend(s[p..], t, 0);
      SeekFound(s[p..] + t);
    } else if |s| > 4 {
      var k := |s| - 4;
      forall j | 0 <= j < k ensures !At(s + t, j) {
        AtAppend(s, t, j);
      }
      SeekDrop(s + t, k);
      assert (s + t)[k..] == Tail(s) + t;
    }
  }

  /** Behind a magic word the search may go on five bytes later: nothing starts in between. */
  lemma SkipFive(s: bytes, k: nat)
    requires At(s, 0) && |s| >= 9 && 1 <= k <= 5
    ensures forall j :: 0 < j < 5 ==> !At(s, j)
    ensures Seek(s[k..]) == Seek(s[5..])
  {
    forall j | 0 < j < 5 ensures !At(s, j) {
      if At(s, j) { NoOverlap(s, 0, j); }
    }
    var u := s[k..];
    forall i | 0 <= i < 5 - k ensures !At(u, i) {
      AtShift(s, k, i);
    }
    SeekDrop(u, 5 - k);
    assert u[5 - k..] == s[5..];
  }

  /** Noise without a magic word stays without one in front of a magic word. */
  lemma SeekPastNoise(noise: bytes, s: bytes)
    requires Find(noise) < 0 && At(s, 0)
    ensures Seek(noise + s) == Sought(true, s)
  {
    var n := |noise|;
    var u := noise + s;
    AtShift(u, n, 0);
    assert u[n..] == s;
    forall j | 0 <= j < n ensures !At(u, j) {
      AtAppend(noise, s, j);
      if At(u, j) {
        NoOverlap(u, j, n);
      }
    }
    FindIs(u, n);
  }

  /** The new bytes a magic word can reach into from at most four old ones. */
  function Edge(d: bytes): bytes {
    if |d| < 4 then d else d[..4]
  }

  lemma DropAppend(s: bytes, t: bytes, n: nat)
    requires n <= |s|
    ensures (s + t)[n..] == s[n..] + t
  {
  }

  /** Looking in the joint of old and new bytes first finds what lies there. */
  lemma InJoint(a: bytes, d: bytes)
    requires |a| <= 4 && Find(a + Edge(d)) >= 0
    ensures Find(a + d) == Find(a + Edge(d)) && Find(a + d) + 1 <= |a|
    ensures (a + d)[Find(a + d)..] == a[Find(a + d)..] + d
  {
    hide At, Find;
    EdgeSplit(a, d);
    FindAppend(a + Edge(d), d[|Edge(d)|..]);
    DropAppend(a, d, Find(a + d));
  }

  lemma EdgeSplit(a: bytes, d: bytes)
    ensures |Edge(d)| <= 4 && |Edge(d)| <= |d| && (a + Edge(d)) + d[|Edge(d)|..] == a + d
  {
    assert Edge(d) + d[|Edge(d)|..] == d;
  }

  /** With nothing there, what is found lies in the new bytes alone. */
  lemma InNewOnly(a: bytes, d: bytes)
    requires |a| <= 4 && Find(a + Edge(d)) < 0
    ensures Find(a + d) == if Find(d) < 0 then -1 else |a| + Find(d)
    ensures Find(d) >= 0 ==> (a + d)[Find(a + d)..] == d[Find(d)..]
  {
    hide At, Find;
    var c := |Edge(d)|;
    var e := a + Edge(d);
    assert e + d[c..] == a + d;
    forall j | 0 <= j < |a| ensures !At(a + d, j) {
      if c == 4 {
        AtAppend(e, d[c..], j);
      } else {
        assert e == a + d;
      }
    }
    FindDrop(a + d, |a|);
    assert (a + d)[|a|..] == d;
  }

  /** The last four bytes of old and new ones, taken from each side. */
  lemma TailOfJoint(a: bytes, d: bytes)
    requires |a| <= 4 && |a| + |d| >= 5
    ensures var c := |Edge(d)|;
      0 <= |a| - (4 - c) <= |a| && Tail(a + d) == a[|a| - (4 - c)..] + d[|d| - c..]
  {
    var c := |Edge(d)|;
    if c == 4 {
      assert a[|a|..] == [] && Tail(a + d) == d[|d| - 4..];
    } else {
      assert d[0..] == d;
      DropAppend(a, d, |a| - (4 - c));
    }
  }
}
