/** base64/base64.c: the encoder and decoder, against section 4 of RFC 4648. */
module Base64 {
  import opened Basics
  import opened Bytes

  type sextet = x: nat | x < 64

  // ----- the alphabet -----

  /** Table 1 of RFC 4648. */
  function Symbol(v: nat): (c: char)
    requires v < 64
  {
    if v < 26 then ('A' as int + v) as char
    else if v < 52 then ('a' as int + (v - 26)) as char
    else if v < 62 then ('0' as int + (v - 52)) as char
    else if v == 62 then '+'
    else '/'
  }

  /** The sextet a character stands for, or -1. */
  function Value(c: char): (v: int)
    ensures -1 <= v < 64
  {
    if 'A' <= c <= 'Z' then c as int - 'A' as int
    else if 'a' <= c <= 'z' then c as int - 'a' as int + 26
    else if '0' <= c <= '9' then c as int - '0' as int + 52
    else if c == '+' then 62
    else if c == '/' then 63
    else -1
  }

  /** The two directions of Table 1 fit: a character has a value exactly when it is that value's
      symbol, and neither the pad character nor NUL has one. */
  lemma ValueAndSymbol(c: char, s: sextet)
    ensures Value(c) == s <==> Symbol(s) == c
    ensures Value('=') == -1 && Value('\0') == -1
  {
  }

  /** The table `b64` of the encoder. */
  method Encoded(v: nat) returns (c: char)
    requires v < 64
    ensures c == Symbol(v)
  {
    var upper, lower, digits := "ABCDEFGHIJKLMNOPQRSTUVWXYZ", "abcdefghijklmnopqrstuvwxyz", "0123456789";
    assert forall i :: 0 <= i < 26 ==> upper[i] as int == 'A' as int + i;
    assert forall i :: 0 <= i < 26 ==> lower[i] as int == 'a' as int + i;
    assert forall i :: 0 <= i < 10 ==> digits[i] as int == '0' as int + i;
    var b64 := upper + lower + digits + "+/";
    c := b64[v];
  }

  function Entry(index: nat): byte {
    if index == 0 then 62
    else if index == 4 then 63
    else if 5 <= index < 15 then index + 47
    else if 22 <= index < 48 then index - 22
    else if 54 <= index < 80 then index - 28
    else 0xff
  }

  /** The entries of the table `map2` up to 'Z' ... */
  method MapUpToZ() returns (low: seq<byte>)
    ensures |low| == 48
    ensures forall i :: 0 <= i < 48 ==> low[i] == Entry(i)
  {
    var signs: seq<byte> := [0x3e, 0xff, 0xff, 0xff, 0x3f];
    var digits: seq<byte> := [0x34, 0x35, 0x36, 0x37, 0x38, 0x39, 0x3a, 0x3b, 0x3c, 0x3d];
    var gap: seq<byte> := [0xff, 0xff, 0xff, 0xff, 0xff, 0xff, 0xff];
    var upper: seq<byte> := [
      0x00, 0x01, 0x02, 0x03, 0x04, 0x05, 0x06, 0x07, 0x08, 0x09, 0x0a, 0x0b, 0x0c,
      0x0d, 0x0e, 0x0f, 0x10, 0x11, 0x12, 0x13, 0x14, 0x15, 0x16, 0x17, 0x18, 0x19];
    assert forall i :: 0 <= i < 10 ==> digits[i] == 52 + i;
    assert forall i :: 0 <= i < 26 ==> upper[i] == i;
    low := signs + digits + gap + upper;
  }

  /** ... and from '[' on. */
  method MapFromA() returns (high: seq<byte>)
    ensures |high| == 32
    ensures forall i :: 0 <= i < 32 ==> high[i] == Entry(48 + i)
  {
    var hole: seq<byte> := [0xff, 0xff, 0xff, 0xff, 0xff, 0xff];
    var lower: seq<byte> := [
      0x1a, 0x1b, 0x1c, 0x1d, 0x1e, 0x1f, 0x20, 0x21, 0x22, 0x23, 0x24, 0x25, 0x26,
      0x27, 0x28, 0x29, 0x2a, 0x2b, 0x2c, 0x2d, 0x2e, 0x2f, 0x30, 0x31, 0x32, 0x33];
    assert forall i :: 0 <= i < 26 ==> lower[i] == 26 + i;
    high := hole + lower;
  }

  lemma EntryIsValue(index: nat)
    requires index < 80
    ensures Entry(index) == if Value((index + 43) as char) == -1 then 0xff else Value((index + 43) as char)
  {
  }

  /** The table `map2` of the decoder: one entry for each character from '+' to 'z'. */
  method Mapped(index: nat) returns (v: byte)
    requires index < 80
    ensures v == if Value((index + 43) as char) == -1 then 0xff else Value((index + 43) as char)
  {
    hide Value, Entry;
    var low := MapUpToZ();
    var high := MapFromA();
    var map2 := low + high;
    v := map2[index];
    EntryIsValue(index);
  }

  // ----- RFC 4648, section 4 -----

  /** The sextets of the encoding, one 24-bit group at a time; 64 stands for the pad character. */
  function Rfc4648(data: seq<byte>): (s: seq<nat>)
    ensures |s| == (|data| + 2) / 3 * 4
  {
    if data == [] then []
    else if |data| == 1 then [data[0] / 4, data[0] % 4 * 16, 64, 64]
    else if |data| == 2 then
      [data[0] / 4, data[0] % 4 * 16 + data[1] / 16, data[1] % 16 * 4, 64]
    else
      [data[0] / 4, data[0] % 4 * 16 + data[1] / 16, data[1] % 16 * 4 + data[2] / 64, data[2] % 64]
      + Rfc4648(data[3..])
  }

  function ByteAt(data: seq<byte>, i: nat): byte {
    if i < |data| then data[i] else 0
  }

  /** The number of sextets that hold `n` bytes. */
  function SextetCount(n: nat): nat {
    (8 * n + 5) / 6
  }

  /** Bits 6j to 6j+5 of the data, zero bits beyond its end. */
  function Sextet(data: seq<byte>, j: nat): (s: nat)
    ensures s < 64
  {
    var b := j / 4 * 3;
    if j % 4 == 0 then ByteAt(data, b) / 4
    else if j % 4 == 1 then ByteAt(data, b) % 4 * 16 + ByteAt(data, b + 1) / 16
    else if j % 4 == 2 then ByteAt(data, b + 1) % 16 * 4 + ByteAt(data, b + 2) / 64
    else ByteAt(data, b + 2) % 64
  }

  lemma SextetShift(data: seq<byte>, j: nat)
    requires |data| >= 3 && j >= 4
    ensures Sextet(data, j) == Sextet(data[3..], j - 4)
  {
    var b := j / 4 * 3;
    assert (j - 4) / 4 * 3 == b - 3 && (j - 4) % 4 == j % 4;
    assert ByteAt(data[3..], b - 3) == ByteAt(data, b);
    assert ByteAt(data[3..], b - 2) == ByteAt(data, b + 1);
    assert ByteAt(data[3..], b - 1) == ByteAt(data, b + 2);
  }

  lemma {:induction false} Rfc4648At(data: seq<byte>, j: nat)
    requires j < |Rfc4648(data)|
    ensures Rfc4648(data)[j] == if j < SextetCount(|data|) then Sextet(data, j) else 64
  {
    if j < 4 {
      assert j == 0 || j == 1 || j == 2 || j == 3;
    } else {
      Rfc4648At(data[3..], j - 4);
      SextetShift(data, j);
    }
  }

  /** The text of the encoding. */
  function Rfc4648Text(data: seq<byte>): (text: string)
    ensures |text| == |Rfc4648(data)|
  {
    seq(|Rfc4648(data)|, j requires 0 <= j < |Rfc4648(data)| =>
      if Rfc4648(data)[j] < 64 then Symbol(Rfc4648(data)[j]) else '=')
  }

  function CharAt(data: seq<byte>, j: nat): char {
    if j < SextetCount(|data|) then Symbol(Sextet(data, j)) else '='
  }

  lemma {:induction false} TextByChars(data: seq<byte>, text: string)
    requires |text| == |Rfc4648(data)|
    requires forall j :: 0 <= j < |text| ==> text[j] == CharAt(data, j)
    ensures text == Rfc4648Text(data)
  {
    forall j | 0 <= j < |text|
      ensures text[j] == Rfc4648Text(data)[j]
    {
      Rfc4648At(data, j);
    }
  }

  // ----- the encoder -----

  /** BASE64_SIZE */
  function Size(n: nat): nat {
    (n + 2) / 3 * 4 + 1
  }

  /** The value `(i_bits << 6 >> i_shift) & 0x3f` with 32-bit wrap-around. */
  function Emitted(bits: nat, shift: nat): nat {
    bits * 64 % TWO32 / Pow2(shift) % 64
  }

  /** Reducing modulo a * b before dividing by a only loses the high part. */
  lemma DropHigh(x: int, a: int, b: int)
    requires a > 0 && b > 0
    ensures a * b > 0 && x % (a * b) / a == x / a % b
  {
    assert a * b > 0;
    var q, r := x / (a * b), x % (a * b);
    var s, t := r / a, r % a;
    assert a * s <= r < a * b;
    assert s < b;
    assert x == a * (b * q + s) + t;
    DivIs(x, a, b * q + s, t);
    DivIs(b * q + s, b, q, s);
  }

  lemma ModMod(x: int, a: int, b: int)
    requires a > 0 && b > 0
    ensures a * b > 0 && x % (a * b) % a == x % a
  {
    assert a * b > 0;
    var q, r := x / (a * b), x % (a * b);
    assert x == a * (b * q + r / a) + r % a;
    DivIs(x, a, b * q + r / a, r % a);
  }

  /** The wrap-around at bit 32 is out of reach of the six bits that are used. */
  lemma {:induction false} EmittedBits(bits: nat, shift: nat, high: nat)
    requires Pow2(shift) * (64 * high) == TWO32
    ensures Emitted(bits, shift) == bits * 64 / Pow2(shift) % 64
  {
    var a := Pow2(shift);
    assert high > 0;
    DropHigh(bits * 64, a, 64 * high);
    ModMod(bits * 64 / a, 64, high);
  }

  lemma PowersOfTwo()
    ensures Pow2(2) == 4 && Pow2(4) == 16 && Pow2(6) == 64 && Pow2(8) == 256
    ensures Pow2(10) == 1024 && Pow2(12) == 4096 && Pow2(14) == 16384
  {
  }

  /** What the encoder emits at each shift, in terms of the last two bytes it has read. */
  lemma EmittedSextet(bits: nat, shift: nat, before: byte, last: byte)
    requires bits % 65536 == before * 256 + last
    requires shift == 2 || shift == 4 || shift == 6 || shift == 8 || shift == 10 || shift == 12 || shift == 14
    ensures Emitted(bits, shift) ==
      if shift == 2 then last % 4 * 16
      else if shift == 4 then last % 16 * 4
      else if shift == 6 then last % 64
      else if shift == 8 then last / 4
      else if shift == 10 then before % 4 * 16 + last / 16
      else if shift == 12 then before % 16 * 4 + last / 64
      else before % 64
  {
    PowersOfTwo();
    var high := bits / 65536;
    assert bits == 65536 * high + 256 * before + last;
    if shift == 2 {
      EmittedBits(bits, 2, 16777216);
      DivIs(bits * 64, 4, 1048576 * high + 4096 * before + 16 * last, 0);
      DivIs(1048576 * high + 4096 * before + 16 * last, 64, 16384 * high + 64 * before + last / 4, last % 4 * 16);
    } else if shift == 4 {
      EmittedBits(bits, 4, 4194304);
      DivIs(bits * 64, 16, 262144 * high + 1024 * before + 4 * last, 0);
      DivIs(262144 * high + 1024 * before + 4 * last, 64, 4096 * high + 16 * before + last / 16, last % 16 * 4);
    } else if shift == 6 {
      EmittedBits(bits, 6, 1048576);
      DivIs(bits * 64, 64, 65536 * high + 256 * before + last, 0);
      DivIs(65536 * high + 256 * before + last, 64, 1024 * high + 4 * before + last / 64, last % 64);
    } else if shift == 8 {
      EmittedBits(bits, 8, 262144);
      DivIs(bits * 64, 256, 16384 * high + 64 * before + last / 4, last % 4 * 64);
      DivIs(16384 * high + 64 * before + last / 4, 64, 256 * high + before, last / 4);
    } else if shift == 10 {
      EmittedBits(bits, 10, 65536);
      DivIs(bits * 64, 1024, 4096 * high + 16 * before + last / 16, last % 16 * 64);
      DivIs(4096 * high + 16 * before + last / 16, 64, 64 * high + before / 4, before % 4 * 16 + last / 16);
    } else if shift == 12 {
      EmittedBits(bits, 12, 16384);
      DivIs(bits * 64, 4096, 1024 * high + 4 * before + last / 64, last % 64 * 64);
      DivIs(1024 * high + 4 * before + last / 64, 64, 16 * high + before / 16, before % 16 * 4 + last / 64);
    } else if shift == 14 {
      EmittedBits(bits, 14, 4096);
      DivIs(bits * 64, 16384, 256 * high + before, last * 64);
      DivIs(256 * high + before, 64, 4 * high + before / 64, before % 64);
    }
  }

  /** The last two bytes read, as one number. */
  function Tail(data: seq<byte>, k: nat): nat
    requires 1 <= k <= |data|
  {
    (if k >= 2 then data[k - 2] as int else 0) * 256 + data[k - 1]
  }

  /** The last two of the first `k` bytes are at the bottom of `bits`. */
  predicate Holds(bits: nat, data: seq<byte>, k: nat)
    requires k <= |data|
  {
    if k == 0 then bits == 0 else bits % 65536 == Tail(data, k)
  }

  /** After `k` bytes, with `8k - 6j` bits still pending, the encoder emits sextet `j`; the last ones
      only once the input is exhausted. */
  lemma EmitsSextet(data: seq<byte>, bits: nat, k: nat, j: nat, shift: int)
    requires 1 <= k <= |data| && Holds(bits, data, k)
    requires shift == 8 * k - 6 * j && 0 < shift <= 14
    requires shift <= 6 ==> k == |data|
    ensures j < SextetCount(|data|) && Emitted(bits, shift) == Sextet(data, j)
  {
    hide Emitted;
    var q, r := j / 4, j % 4;
    assert shift == 8 * k - 24 * q - 6 * r;
    assert shift == 2 || shift == 4 || shift == 6 || shift == 8 || shift == 10 || shift == 12 || shift == 14;
    EmittedSextet(bits, shift, if k >= 2 then data[k - 2] else 0, data[k - 1]);
    if r == 0 {
      assert k == 3 * q + 1;
    } else if r == 1 {
      assert k == 3 * q + 1 || k == 3 * q + 2;
    } else if r == 2 {
      assert k == 3 * q + 2 || k == 3 * q + 3;
    } else {
      assert k == 3 * q + 3 || k == 3 * q + 4;
    }
  }

  lemma HoldsNothing(data: seq<byte>)
    ensures Holds(0, data, 0)
  {
  }

  lemma AllEmitted(n: nat, dst: nat, shift: int)
    requires 6 * dst + shift == 8 * n && -4 <= shift <= 0
    ensures dst == SextetCount(n)
  {
  }

  /** Shifting in a byte, with 32-bit wrap-around, keeps the last two bytes at the bottom. */
  lemma TailStep(data: seq<byte>, bits: nat, k: nat)
    requires k < |data| && Holds(bits, data, k)
    ensures Holds((bits * 256 + data[k]) % TWO32, data, k + 1)
  {
    var x := bits * 256 + data[k];
    ModMod(x, 65536, 65536);
    var before := if k > 0 then data[k - 1] as int else 0;
    var high := bits / 65536 * 256 + (if k > 1 then data[k - 2] as int else 0);
    DivIs(x, 65536, high, before * 256 + data[k]);
  }

  /** The two nested loops of `base64_encode`. */
  method EncodeSextets(out: array<char>, data: seq<byte>) returns (dst: nat)
    requires SextetCount(|data|) <= out.Length
    modifies out
    ensures dst == SextetCount(|data|)
    ensures forall j :: 0 <= j < dst ==> out[j] == Symbol(Sextet(data, j))
    ensures forall j :: dst <= j < out.Length ==> out[j] == old(out[j])
  {
    hide Sextet, Symbol, Emitted, SextetCount, Holds;
    HoldsNothing(data);
    var n := |data|;
    var k, bits, shift, remaining := 0, 0, 0, n;
    dst := 0;
    while remaining != 0
      invariant 0 <= k <= n && remaining == n - k
      invariant 6 * dst + shift == 8 * k && dst <= SextetCount(n)
      invariant if k == 0 then shift == 0 else if k < n then 2 <= shift <= 6 else -4 <= shift <= 0
      invariant 0 <= bits && Holds(bits, data, k)
      invariant forall j :: 0 <= j < dst ==> out[j] == Symbol(Sextet(data, j))
      invariant forall j :: dst <= j < out.Length ==> out[j] == old(out[j])
    {
      TailStep(data, bits, k);
      bits := (bits * 256 + data[k]) % TWO32;
      k, remaining := k + 1, remaining - 1;
      shift := shift + 8;
      var more := true;
      while more
        invariant 6 * dst + shift == 8 * k && dst <= SextetCount(n)
        invariant more ==> 0 < shift <= 14 && (shift <= 6 ==> k == n)
        invariant !more ==> if k < n then 2 <= shift <= 6 else -4 <= shift <= 0
        invariant forall j :: 0 <= j < dst ==> out[j] == Symbol(Sextet(data, j))
        invariant forall j :: dst <= j < out.Length ==> out[j] == old(out[j])
        decreases shift + 6, more
      {
        EmitsSextet(data, bits, k, dst, shift);
        out[dst] := Encoded(Emitted(bits, shift));
        dst := dst + 1;
        shift := shift - 6;
        more := shift > 6 || (remaining == 0 && shift > 0);
      }
    }
    AllEmitted(n, dst, shift);
  }

  lemma SextetsFit(n: nat)
    ensures SextetCount(n) < Size(n)
  {
  }

  lemma PaddedLength(n: nat, dst: nat)
    requires SextetCount(n) <= dst < Size(n)
    ensures dst % 4 == 0 <==> dst == Size(n) - 1
  {
    var groups := (n + 2) / 3;
    assert 4 * groups - 4 < SextetCount(n) <= dst <= 4 * groups;
    assert dst % 4 == 0 ==> dst / 4 == groups;
  }

  /** `base64_encode` up to the final NUL. */
  method EncodePadded(out: array<char>, data: seq<byte>) returns (dst: nat)
    requires Size(|data|) <= out.Length
    modifies out
    ensures dst == Size(|data|) - 1
    ensures forall j :: 0 <= j < dst ==> out[j] == CharAt(data, j)
    ensures forall j :: dst <= j < out.Length ==> out[j] == old(out[j])
  {
    hide Sextet, Symbol, Size, SextetCount;
    SextetsFit(|data|);
    dst := EncodeSextets(out, data);
    while dst % 4 != 0
      invariant SextetCount(|data|) <= dst < Size(|data|)
      invariant forall j :: 0 <= j < dst ==> out[j] == CharAt(data, j)
      invariant forall j :: dst <= j < out.Length ==> out[j] == old(out[j])
      decreases Size(|data|) - dst
    {
      PaddedLength(|data|, dst);
      out[dst] := '=';
      dst := dst + 1;
    }
    PaddedLength(|data|, dst);
  }

  /** `base64_encode`; false stands for the NULL result. */
  method Base64Encode(out: array<char>, outSize: int, data: seq<byte>, inSize: int) returns (ok: bool)
    requires outSize <= out.Length
    requires -0x8000_0000 <= inSize < 0x8000_0000 && inSize <= |data|
    modifies out
    ensures ok <==> 0 <= inSize < 0xffff_ffff / 4 && Size(inSize) <= outSize
    ensures !ok ==> out[..] == old(out[..])
    ensures ok ==> out[..Size(inSize)] == Rfc4648Text(data[..inSize]) + ['\0']
    ensures ok ==> forall j :: Size(inSize) <= j < out.Length ==> out[j] == old(out[j])
  {
    hide Rfc4648Text, Rfc4648, CharAt;
    if inSize % TWO32 >= 0xffff_ffff / 4 || outSize < Size(inSize) {
      return false;
    }
    var input := data[..inSize];
    var dst := EncodePadded(out, input);
    ghost var text := out[..dst];
    TextByChars(input, text);
    out[dst] := '\0';
    assert out[..dst + 1] == text + ['\0'];
    return true;
  }

  // ----- the decoder -----

  /** The characters before the first '=' or NUL. */
  function Body(text: string): (body: string)
    ensures body <= text
    ensures forall i :: 0 <= i < |body| ==> body[i] == text[i] && text[i] != '=' && text[i] != '\0'
    ensures |body| < |text| ==> text[|body|] == '=' || text[|body|] == '\0'
  {
    if text == [] || text[0] == '=' || text[0] == '\0' then ""
    else [text[0]] + Body(text[1..])
  }

  predicate AllSymbols(body: string) {
    forall i :: 0 <= i < |body| ==> Value(body[i]) >= 0
  }

  /** The sextets the characters stand for. */
  function Values(body: string): (s: seq<sextet>)
    ensures |s| == |body|
    ensures forall i :: 0 <= i < |s| && Value(body[i]) >= 0 ==> s[i] == Value(body[i])
  {
    seq(|body|, i requires 0 <= i < |body| => if Value(body[i]) < 0 then 0 else Value(body[i]))
  }

  /** The number of whole bytes in `n` sextets. */
  function ByteCount(n: nat): nat {
    n * 3 / 4
  }

  /** Bits 8m to 8m+7 of the sextets. */
  function ByteOf(s: seq<sextet>, m: nat): (b: byte)
    requires m < ByteCount(|s|)
  {
    var j := m / 3 * 4 + m % 3;
    if m % 3 == 0 then s[j] as int * 4 + s[j + 1] / 16
    else if m % 3 == 1 then s[j] as int % 16 * 16 + s[j + 1] / 4
    else s[j] as int % 4 * 64 + s[j + 1]
  }

  function DecodedBytes(s: seq<sextet>): (bytes: seq<byte>)
    ensures |bytes| == ByteCount(|s|)
  {
    seq(ByteCount(|s|), m requires 0 <= m < ByteCount(|s|) => ByteOf(s, m))
  }

  /** Reduction to a signed 32-bit int. */
  function Wrap32(x: int): int {
    (x + 0x8000_0000) % TWO32 - 0x8000_0000
  }

  /** Shifting a sextet into `v` keeps the last two sextets in its low 12 bits. */
  lemma ShiftedIn(v: int, a: nat, b: nat)
    requires v % 64 == a && b < 64
    ensures Wrap32(v * 64 + b) % 4096 == a * 64 + b
  {
    var x := v * 64 + b;
    DivIs(x, 4096, v / 64, a * 64 + b);
    var w := (x + 0x8000_0000) / TWO32;
    assert Wrap32(x) == x - TWO32 * w;
    DivIs(Wrap32(x), 4096, v / 64 - 0x10_0000 * w, a * 64 + b);
  }

  /** The low 8 bits of `v` shifted right, for the three places in a group that complete a byte. */
  lemma ShiftedOut(v: int, a: nat, b: nat)
    requires v % 4096 == a * 64 + b && a < 64 && b < 64
    ensures v / 16 % 256 == a * 4 + b / 16
    ensures v / 4 % 256 == a % 16 * 16 + b / 4
    ensures v % 256 == a % 4 * 64 + b
    ensures v % 64 == b
  {
    var h := v / 4096;
    assert v == 4096 * h + 64 * a + b;
    DivIs(v, 16, 256 * h + 4 * a + b / 16, b % 16);
    DivIs(256 * h + 4 * a + b / 16, 256, h, 4 * a + b / 16);
    DivIs(v, 4, 1024 * h + 16 * a + b / 4, b % 4);
    DivIs(1024 * h + 16 * a + b / 4, 256, 4 * h + a / 16, a % 16 * 16 + b / 4);
    DivIs(v, 256, 16 * h + a / 4, a % 4 * 64 + b);
    DivIs(v, 64, 64 * h + a, b);
  }

  /** `v >> (6 - 2 * (i & 3))`, stored into a byte. */
  function Stored(v: int, i: nat): byte {
    if i % 4 == 1 then v / 16 % 256 else if i % 4 == 2 then v / 4 % 256 else v % 256
  }

  /** Sextet `i` completes byte `ByteCount(i)`, unless it opens a group. */
  lemma StoresByte(s: seq<sextet>, v: int, i: nat)
    requires i < |s| && i % 4 != 0
    requires v % 4096 == s[i - 1] as int * 64 + s[i]
    ensures ByteCount(i) < ByteCount(i + 1) <= ByteCount(|s|)
    ensures Stored(v, i) == ByteOf(s, ByteCount(i))
  {
    ShiftedOut(v, s[i - 1], s[i]);
    var q := i / 4;
    assert i == 4 * q + 1 || i == 4 * q + 2 || i == 4 * q + 3;
    assert ByteCount(i) == 3 * q + i % 4 - 1;
  }

  /** One round of the decoder's loop, apart from the assignment to the output. */
  lemma Advance(s: seq<sextet>, v: int, i: nat)
    requires i < |s|
    requires i > 0 ==> v % 64 == s[i - 1]
    ensures var w := Wrap32(v * 64 + s[i]);
      && w % 64 == s[i]
      && ByteCount(i) <= ByteCount(i + 1) <= ByteCount(|s|)
      && (i % 4 == 0 ==> ByteCount(i + 1) == ByteCount(i))
      && (i % 4 != 0 ==> ByteCount(i + 1) == ByteCount(i) + 1 && Stored(w, i) == ByteOf(s, ByteCount(i)))
  {
    var w := Wrap32(v * 64 + s[i]);
    ShiftedIn(v, v % 64, s[i]);
    ShiftedOut(w, v % 64, s[i]);
    if i % 4 != 0 {
      StoresByte(s, w, i);
    }
    assert i == 4 * (i / 4) + i % 4;
  }

  function AtMost(n: nat, limit: int): nat {
    if limit < 0 then 0 else if n < limit then n else limit
  }

  /** `map2[in[i] - 43]`, with 0xff also for the characters the table does not reach. */
  method Lookup(c: char) returns (value: byte)
    ensures value == if Value(c) == -1 then 0xff else Value(c)
  {
    var index := (c as int - 43) % TWO32;
    if c as int < 43 || c as int >= 123 {
      assert Value(c) == -1 && index >= 80;
    } else {
      assert index == c as int - 43;
    }
    hide Value;
    if index >= 80 {
      return 0xff;
    }
    value := Mapped(index);
  }

  /** The loop of `base64_decode`; `s` holds the sextets of the first `n` characters. */
  method DecodeBody(out: array<byte>, text: string, outSize: int, ghost n: nat, ghost s: seq<sextet>)
    returns (rc: int, ghost at: nat)
    requires n < |text| && |s| == n && outSize <= out.Length
    requires forall k :: 0 <= k < n ==> text[k] != '\0' && text[k] != '='
    requires text[n] == '\0' || text[n] == '='
    requires forall k :: 0 <= k < n && Value(text[k]) >= 0 ==> s[k] == Value(text[k])
    modifies out
    ensures rc == -1 ==> at < n && Value(text[at]) < 0
    ensures rc != -1 ==> forall k :: 0 <= k < n ==> Value(text[k]) >= 0
    ensures rc != -1 ==> rc == AtMost(ByteCount(n), outSize)
    ensures rc != -1 ==> forall m :: 0 <= m < rc ==> out[m] == ByteOf(s, m)
    ensures rc != -1 ==> forall m :: rc <= m < out.Length ==> out[m] == old(out[m])
    ensures forall m :: 0 <= m < out.Length && outSize <= m ==> out[m] == old(out[m])
  {
    var v, i, dst := 0, 0, 0;
    while text[i] != '\0' && text[i] != '='
      invariant 0 <= i <= n && forall k :: 0 <= k < i ==> Value(text[k]) >= 0
      invariant dst == AtMost(ByteCount(i), outSize) && ByteCount(i) <= ByteCount(n)
      invariant i > 0 ==> v % 64 == s[i - 1]
      invariant forall m :: 0 <= m < dst ==> out[m] == ByteOf(s, m)
      invariant forall m :: dst <= m < out.Length ==> out[m] == old(out[m])
      decreases n - i
    {
      var value := Lookup(text[i]);
      if value == 0xff {
        return -1, i;
      }
      Advance(s, v, i);
      v := Wrap32(v * 64 + value);
      if i % 4 != 0 {
        if dst < outSize {
          out[dst] := Stored(v, i);
          dst := dst + 1;
        }
      }
      i := i + 1;
    }
    return dst, i;
  }

  /** `base64_decode` of a NUL-terminated text. */
  method Base64Decode(out: array<byte>, text: string, outSize: int) returns (rc: int)
    requires '\0' in text && outSize <= out.Length
    modifies out
    ensures rc == -1 <==> !AllSymbols(Body(text))
    ensures rc != -1 ==> rc == AtMost(ByteCount(|Body(text)|), outSize)
    ensures rc != -1 ==> out[..rc] == DecodedBytes(Values(Body(text)))[..rc] && out[rc..] == old(out[rc..])
    ensures forall m :: 0 <= m < out.Length && outSize <= m ==> out[m] == old(out[m])
  {
    ghost var body := Body(text);
    ghost var s := Values(body);
    ghost var i;
    rc, i := DecodeBody(out, text, outSize, |body|, s);
    if rc == -1 {
      assert Value(body[i]) < 0;
    } else {
      assert out[..rc] == DecodedBytes(s)[..rc];
    }
  }

  // ----- the round trip -----

  lemma {:induction false} BodyIs(body: string, rest: string)
    requires forall i :: 0 <= i < |body| ==> body[i] != '=' && body[i] != '\0'
    requires rest != [] && (rest[0] == '=' || rest[0] == '\0')
    ensures Body(body + rest) == body
  {
    if body == [] {
      assert body + rest == rest;
    } else {
      assert (body + rest)[1..] == body[1..] + rest;
      BodyIs(body[1..], rest);
    }
  }

  /** Sextet `r` of a group of three bytes. */
  function Piece(r: nat, x: byte, y: byte, z: byte): nat {
    if r == 0 then x / 4
    else if r == 1 then x % 4 * 16 + y / 16
    else if r == 2 then y % 16 * 4 + z / 64
    else z % 64
  }

  lemma SextetOf(data: seq<byte>, q: nat, r: nat)
    requires r < 4
    ensures Sextet(data, 4 * q + r) == Piece(r, ByteAt(data, 3 * q), ByteAt(data, 3 * q + 1), ByteAt(data, 3 * q + 2))
  {
    DivIs(4 * q + r, 4, q, r);
  }

  /** Byte `r` of a group, from its sextets `r` and `r + 1`. */
  function Joined(r: nat, a: nat, b: nat): nat {
    if r == 0 then a * 4 + b / 16
    else if r == 1 then a % 16 * 16 + b / 4
    else a % 4 * 64 + b
  }

  lemma ByteJoined(s: seq<sextet>, q: nat, r: nat)
    requires r < 3 && 3 * q + r < ByteCount(|s|)
    ensures 4 * q + r + 1 < |s| && ByteOf(s, 3 * q + r) == Joined(r, s[4 * q + r], s[4 * q + r + 1])
  {
    DivIs(3 * q + r, 3, q, r);
  }

  lemma JoinedPieces(r: nat, x: byte, y: byte, z: byte)
    requires r < 3
    ensures Joined(r, Piece(r, x, y, z), Piece(r + 1, x, y, z)) == if r == 0 then x else if r == 1 then y else z
  {
    if r == 0 {
      DivIs(x % 4 * 16 + y / 16, 16, x % 4, y / 16);
    } else if r == 1 {
      DivIs(x % 4 * 16 + y / 16, 16, x % 4, y / 16);
      DivIs(y % 16 * 4 + z / 64, 4, y % 16, z / 64);
    } else {
      DivIs(y % 16 * 4 + z / 64, 4, y % 16, z / 64);
    }
  }

  lemma ByteOfSextets(data: seq<byte>, s: seq<sextet>, m: nat)
    requires |s| == SextetCount(|data|) && m < |data| && m < ByteCount(|s|)
    requires forall j :: 0 <= j < |s| ==> s[j] == Sextet(data, j)
    ensures ByteOf(s, m) == data[m]
  {
    hide ByteOf, Sextet, Joined, Piece, SextetCount, ByteCount;
    var q, r := m / 3, m % 3;
    ByteJoined(s, q, r);
    SextetOf(data, q, r);
    SextetOf(data, q, r + 1);
    JoinedPieces(r, ByteAt(data, 3 * q), ByteAt(data, 3 * q + 1), ByteAt(data, 3 * q + 2));
  }

  /** Decoding what the encoder writes gives the data back. */
  lemma {:induction false} RoundTrip(data: seq<byte>)
    ensures var body := Body(Rfc4648Text(data) + ['\0']);
      && AllSymbols(body) && ByteCount(|body|) == |data|
      && DecodedBytes(Values(body)) == data
  {
    hide Sextet, Rfc4648, Value, Symbol, ByteOf, Body;
    var text, n := Rfc4648Text(data), SextetCount(|data|);
    var body := text[..n];
    forall j | 0 <= j < |text|
      ensures text[j] == CharAt(data, j)
    {
      Rfc4648At(data, j);
    }
    forall j | 0 <= j < n
      ensures Value(body[j]) == Sextet(data, j)
    {
      ValueAndSymbol(body[j], Sextet(data, j));
    }
    ValueAndSymbol('=', 0);
    assert text + ['\0'] == body + (text[n..] + ['\0']);
    BodyIs(body, text[n..] + ['\0']);
    forall m | 0 <= m < |data|
      ensures ByteOf(Values(body), m) == data[m]
    {
      ByteOfSextets(data, Values(body), m);
    }
  }

  /** The two functions one after the other: of any data the encoder accepts, the first bytes that
      have room come back. */
  method EncodeThenDecode(data: seq<byte>, outSize: int) returns (back: seq<byte>)
    requires |data| < 0xffff_ffff / 4
    ensures back == data[..AtMost(|data|, outSize)]
  {
    hide Rfc4648Text, Body, Values, AllSymbols, DecodedBytes, ByteCount;
    var n := |data|;
    var text := new char[Size(n)](_ => '\0');
    var ok := Base64Encode(text, Size(n), data, n);
    assert data[..n] == data;
    assert text[..] == Rfc4648Text(data) + ['\0'];
    RoundTrip(data);
    var out := new byte[if outSize < 0 then 0 else outSize](_ => 0);
    var rc := Base64Decode(out, text[..], outSize);
    back := out[..rc];
  }
}
