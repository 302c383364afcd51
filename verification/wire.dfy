/**
  Byte strings, the little-endian integer fields of the TSSD wire format, and
  the format's constants and type tags.
 */
module Wire {
  type byte = x: int | 0 <= x < 256
  type bytes = seq<byte>

  const MAGIC: bytes := [84, 83, 83, 68, 86]
  const VERSION: bytes := [1, 0]
  const MIN_MTU := 128
  const DEFAULT_MTU := 1440
  const MIN_HEADER := 64
  const MERGED_HEAD := 8

  const TINT16: byte := 14
  const TUINT8: byte := 13
  const TSTRING: byte := 22
  const TTIME: byte := 23
  const TARRAY: byte := 25
  const TARRAYM: byte := 26
  const TOBJECT: byte := 27
  const TDICT: byte := 28
  const TDICTK: byte := 29
  const TDICTV: byte := 30
  const TSCHEMA: byte := 77

  const MAX16 := 0x7FFF
  const LIMIT32 := 0x8000_0000

  /** The byte that holds the negated tag, as a two's complement int8. */
  function Neg(tag: byte): byte {
    if tag == 0 then 0 else 256 - tag
  }

  /** What an int is after a conversion to int16. */
  function Wrap16(n: int): int {
    (n + 0x8000) % 0x1_0000 - 0x8000
  }

  /** What an int is after a conversion to int32. */
  function Wrap32(n: int): int {
    (n + 0x8000_0000) % 0x1_0000_0000 - 0x8000_0000
  }

  function Le16(n: int): (r: bytes)
    ensures |r| == 2
  {
    [n % 0x100, n / 0x100 % 0x100]
  }

  function Le32(n: int): (r: bytes)
    ensures |r| == 4
  {
    [n % 0x100, n / 0x100 % 0x100, n / 0x1_0000 % 0x100, n / 0x100_0000 % 0x100]
  }

  function Int16(b: bytes): int
    requires |b| >= 2
  {
    Wrap16(b[0] as int + 0x100 * (b[1] as int))
  }

  function Int32(b: bytes): int
    requires |b| >= 4
  {
    Wrap32(b[0] as int + 0x100 * (b[1] as int) + 0x1_0000 * (b[2] as int) + 0x100_0000 * (b[3] as int))
  }

  lemma Split(n: int)
    ensures n == n % 0x100 + 0x100 * (n / 0x100)
    ensures n / 0x1_0000 == n / 0x100 / 0x100
    ensures n / 0x100_0000 == n / 0x1_0000 / 0x100
  {
  }

  lemma Congruent16(low: int, q: int)
    ensures Wrap16(low + 0x1_0000 * q) == Wrap16(low)
  {
  }

  lemma Congruent32(low: int, q: int)
    ensures Wrap32(low + 0x1_0000_0000 * q) == Wrap32(low)
  {
  }

  /** Reading a two-byte field gives the written number modulo its width. */
  lemma ReadBack16(n: int, rest: bytes)
    ensures Int16(Le16(n) + rest) == Wrap16(n)
  {
    var b := Le16(n) + rest;
    var q1 := n / 0x100;
    Split(n);
    Split(q1);
    var low := (b[0] as int) + 0x100 * (b[1] as int);
    assert n == low + 0x1_0000 * (q1 / 0x100);
    Congruent16(low, q1 / 0x100);
  }

  /** Reading a four-byte field gives the written number modulo its width. */
  lemma ReadBack32(n: int, rest: bytes)
    ensures Int32(Le32(n) + rest) == Wrap32(n)
  {
    var b := Le32(n) + rest;
    var q1, q2, q3 := n / 0x100, n / 0x1_0000, n / 0x100_0000;
    Split(n);
    Split(q1);
    Split(q2);
    Split(q3);
    var low := (b[0] as int) + 0x100 * (b[1] as int) + 0x1_0000 * (b[2] as int) + 0x100_0000 * (b[3] as int);
    assert n == low + 0x1_0000_0000 * (q3 / 0x100);
    Congruent32(low, q3 / 0x100);
  }

  /** Exactly the numbers that fit their field survive it. */
  lemma SurvivesField(n: int)
    ensures Wrap16(n) == n <==> -0x8000 <= n <= MAX16
    ensures Wrap32(n) == n <==> -LIMIT32 <= n < LIMIT32
  {
  }

  /** A wrapped length never exceeds the number it came from. */
  lemma WrapAtMost(n: nat)
    ensures Wrap16(n) <= n && Wrap32(n) <= n
  {
  }
}
