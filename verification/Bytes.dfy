/** Bytes and big-endian numbers. */
module Bytes {
  import opened Basics

  type byte = x: int | 0 <= x < 256

  /** The bytes of a C string. */
  function Ascii(s: string): (b: seq<byte>)
    ensures |b| == |s|
  {
    seq(|s|, i requires 0 <= i < |s| => s[i] as int % 256)
  }

  /** 256 to the power `w`: the number of values of `w` bytes. */
  function Span(w: nat): (n: nat)
    ensures n > 0
  {
    if w == 0 then 1 else 256 * Span(w - 1)
  }

  lemma Spans()
    ensures Span(1) == 0x100 && Span(2) == 0x1_0000 && Span(4) == 0x1_0000_0000
    ensures Span(8) == 0x1_0000_0000_0000_0000
  {
    assert Span(4) == 256 * (256 * Span(2));
    assert Span(6) == 256 * (256 * Span(4));
    assert Span(8) == 256 * (256 * Span(6));
  }

  /** `v` as `w` bytes, most significant first. */
  function BigEndian(w: nat, v: nat): (b: seq<byte>)
    requires v < Span(w)
    ensures |b| == w
  {
    if w == 0 then [] else BigEndian(w - 1, v / 256) + [v % 256]
  }

  lemma DivIs(x: int, a: int, q: int, r: int)
    requires a > 0 && 0 <= r < a && x == a * q + r
    ensures x / a == q && x % a == r
  {
    var d := x / a - q;
    assert a * d == r - x % a;
    assert d > 0 ==> a * d >= a;
    assert d < 0 ==> a * d <= -a;
  }

  lemma DivAgain(v: nat, b: nat)
    requires b > 0
    ensures v / 256 / b == v / (256 * b)
  {
    var q, r := v / 256 / b, v / 256 % b;
    assert v / 256 == b * q + r;
    assert (256 * b) * q == 256 * (b * q);
    DivIs(v, 256 * b, q, 256 * r + v % 256);
  }

  /** Byte `k` of `w` stands for the multiples of 256 to the power w - 1 - k. */
  lemma {:induction false} BigEndianAt(w: nat, v: nat, k: nat)
    requires v < Span(w) && k < w
    ensures BigEndian(w, v)[k] == v / Span(w - 1 - k) % 256
  {
    if k < w - 1 {
      BigEndianAt(w - 1, v / 256, k);
      DivAgain(v, Span(w - 2 - k));
    }
  }

  function Number(b: seq<byte>): (v: nat)
    ensures v < Span(|b|)
  {
    if b == [] then 0 else 256 * Number(b[..|b| - 1]) + b[|b| - 1]
  }

  lemma {:induction false} NumberOfBigEndian(w: nat, v: nat)
    requires v < Span(w)
    ensures Number(BigEndian(w, v)) == v
  {
    if w > 0 {
      NumberOfBigEndian(w - 1, v / 256);
      assert BigEndian(w, v)[..w - 1] == BigEndian(w - 1, v / 256);
    }
  }

  lemma {:induction false} BigEndianOfNumber(b: seq<byte>)
    ensures BigEndian(|b|, Number(b)) == b
  {
    if b != [] {
      BigEndianOfNumber(b[..|b| - 1]);
      DivIs(Number(b), 256, Number(b[..|b| - 1]), b[|b| - 1]);
    }
  }
}
