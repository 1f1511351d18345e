/** The formats cmp/cmp.c reads and writes (MessagePack specification, section "Formats"). */
module MessagePack {
  import opened Basics
  import opened Bytes

  /** `cmp_object_t`.  `w` is the width in bytes of the number that follows the marker: BIN8, BIN16
      and BIN32 are Bin(1, n), Bin(2, n) and Bin(4, n).  Floats are kept as their bits. */
  datatype Object =
    | PositiveFixnum(u: nat)
    | FixMap(n: nat)
    | FixArray(n: nat)
    | FixStr(n: nat)
    | Nil
    | Boolean(b: bool)
    | Bin(w: nat, n: nat)
    | Ext(w: nat, n: nat, t: int)
    | Float(bits: nat)
    | Double(bits: nat)
    | UInt(w: nat, u: nat)
    | SInt(w: nat, s: int)
    | FixExt(n: nat, t: int)
    | Str(w: nat, n: nat)
    | Array(w: nat, n: nat)
    | Map(w: nat, n: nat)
    | NegativeFixnum(s: int)

  predicate Narrow(w: nat) { w == 1 || w == 2 || w == 4 }

  predicate Wide(w: nat) { w == 2 || w == 4 }

  predicate Any(w: nat) { w == 1 || w == 2 || w == 4 || w == 8 }

  predicate Int8(t: int) { -128 <= t < 128 }

  /** The values each type of object can hold. */
  predicate Fits(o: Object) {
    match o
    case PositiveFixnum(u) => u < 0x80
    case FixMap(n) => n < 0x10
    case FixArray(n) => n < 0x10
    case FixStr(n) => n < 0x20
    case Nil => true
    case Boolean(_) => true
    case Bin(w, n) => Narrow(w) && n < Span(w)
    case Ext(w, n, t) => Narrow(w) && n < Span(w) && Int8(t)
    case Float(bits) => bits < Span(4)
    case Double(bits) => bits < Span(8)
    case UInt(w, u) => Any(w) && u < Span(w)
    case SInt(w, s) => Any(w) && -(Span(w) as int) <= 2 * s < Span(w)
    case FixExt(n, t) => (Any(n) || n == 16) && Int8(t)
    case Str(w, n) => Narrow(w) && n < Span(w)
    case Array(w, n) => Wide(w) && n < Span(w)
    case Map(w, n) => Wide(w) && n < Span(w)
    case NegativeFixnum(s) => -32 <= s < 0
  }

  /** The place of a width in a family of markers. */
  function Rank(w: nat): nat {
    if w == 1 then 0 else if w == 2 then 1 else if w == 4 then 2 else if w == 8 then 3 else 4
  }

  function WidthOf(rank: nat): nat {
    if rank == 0 then 1 else if rank == 1 then 2 else if rank == 2 then 4 else if rank == 3 then 8 else 16
  }

  /** Two's complement. */
  function Unsigned(w: nat, s: int): nat
    requires -(Span(w) as int) <= 2 * s < Span(w)
  {
    if s < 0 then s + Span(w) else s
  }

  function Signed(w: nat, v: nat): int {
    if 2 * v < Span(w) then v else v - Span(w)
  }

  function TypeByte(t: int): byte
    requires Int8(t)
  {
    if t < 0 then t + 256 else t
  }

  function ByteType(b: byte): int {
    if b < 128 then b as int else b as int - 256
  }

  function Marker(o: Object): byte
    requires Fits(o)
  {
    match o
    case PositiveFixnum(u) => u
    case FixMap(n) => 0x80 + n
    case FixArray(n) => 0x90 + n
    case FixStr(n) => 0xA0 + n
    case Nil => 0xC0
    case Boolean(b) => if b then 0xC3 else 0xC2
    case Bin(w, _) => 0xC4 + Rank(w)
    case Ext(w, _, _) => 0xC7 + Rank(w)
    case Float(_) => 0xCA
    case Double(_) => 0xCB
    case UInt(w, _) => 0xCC + Rank(w)
    case SInt(w, _) => 0xD0 + Rank(w)
    case FixExt(n, _) => 0xD4 + Rank(n)
    case Str(w, _) => 0xD9 + Rank(w)
    case Array(w, _) => 0xDC + Rank(w) - 1
    case Map(w, _) => 0xDE + Rank(w) - 1
    case NegativeFixnum(s) => 256 + s
  }

  /** What follows the marker, not counting string, binary or ext data. */
  function Payload(o: Object): seq<byte>
    requires Fits(o)
  {
    match o
    case Bin(w, n) => BigEndian(w, n)
    case Ext(w, n, t) => BigEndian(w, n) + [TypeByte(t)]
    case Float(bits) => BigEndian(4, bits)
    case Double(bits) => BigEndian(8, bits)
    case UInt(w, u) => BigEndian(w, u)
    case SInt(w, s) => BigEndian(w, Unsigned(w, s))
    case FixExt(_, t) => [TypeByte(t)]
    case Str(w, n) => BigEndian(w, n)
    case Array(w, n) => BigEndian(w, n)
    case Map(w, n) => BigEndian(w, n)
    case _ => []
  }

  /** The bytes `cmp_write_object` writes. */
  function Header(o: Object): seq<byte>
    requires Fits(o)
  {
    [Marker(o)] + Payload(o)
  }

  /** The first byte of every format. */
  lemma FirstByte(o: Object)
    requires Fits(o)
    ensures Header(o)[0] ==
      match o
      case PositiveFixnum(u) => u
      case FixMap(n) => 0x80 + n
      case FixArray(n) => 0x90 + n
      case FixStr(n) => 0xA0 + n
      case Nil => 0xC0
      case Boolean(b) => if b then 0xC3 else 0xC2
      case Bin(w, _) => if w == 1 then 0xC4 else if w == 2 then 0xC5 else 0xC6
      case Ext(w, _, _) => if w == 1 then 0xC7 else if w == 2 then 0xC8 else 0xC9
      case Float(_) => 0xCA
      case Double(_) => 0xCB
      case UInt(w, _) => if w == 1 then 0xCC else if w == 2 then 0xCD else if w == 4 then 0xCE else 0xCF
      case SInt(w, _) => if w == 1 then 0xD0 else if w == 2 then 0xD1 else if w == 4 then 0xD2 else 0xD3
      case FixExt(n, _) =>
        if n == 1 then 0xD4 else if n == 2 then 0xD5 else if n == 4 then 0xD6 else if n == 8 then 0xD7 else 0xD8
      case Str(w, _) => if w == 1 then 0xD9 else if w == 2 then 0xDA else 0xDB
      case Array(w, _) => if w == 2 then 0xDC else 0xDD
      case Map(w, _) => if w == 2 then 0xDE else 0xDF
      case NegativeFixnum(s) => 0x100 + s
  {
  }

  // ----- reading -----

  /** How many bytes follow a marker; none of the formats uses 0xC1. */
  function PayloadSize(m: byte): Option<nat> {
    if m < 0xC0 || m >= 0xE0 || m == 0xC0 || m == 0xC2 || m == 0xC3 then Some(0)
    else if m == 0xC1 then None
    else if m < 0xC7 then Some(WidthOf(m - 0xC4))
    else if m < 0xCA then Some(WidthOf(m - 0xC7) + 1)
    else if m < 0xCC then Some(if m == 0xCA then 4 else 8)
    else if m < 0xD0 then Some(WidthOf(m - 0xCC))
    else if m < 0xD4 then Some(WidthOf(m - 0xD0))
    else if m < 0xD9 then Some(1)
    else if m < 0xDC then Some(WidthOf(m - 0xD9))
    else if m < 0xDE then Some(WidthOf(m - 0xDC + 1))
    else Some(WidthOf(m - 0xDE + 1))
  }

  /** The object a marker and the bytes after it stand for. */
  function Build(m: byte, p: seq<byte>): Object
    requires PayloadSize(m) == Some(|p|)
  {
    if m < 0x80 then PositiveFixnum(m)
    else if m < 0x90 then FixMap(m - 0x80)
    else if m < 0xA0 then FixArray(m - 0x90)
    else if m < 0xC0 then FixStr(m - 0xA0)
    else if m == 0xC0 then Nil
    else if m < 0xC4 then Boolean(m == 0xC3)
    else if m < 0xC7 then Bin(|p|, Number(p))
    else if m < 0xCA then Ext(|p| - 1, Number(p[..|p| - 1]), ByteType(p[|p| - 1]))
    else if m == 0xCA then Float(Number(p))
    else if m == 0xCB then Double(Number(p))
    else if m < 0xD0 then UInt(|p|, Number(p))
    else if m < 0xD4 then SInt(|p|, Signed(|p|, Number(p)))
    else if m < 0xD9 then FixExt(WidthOf(m - 0xD4), ByteType(p[0]))
    else if m < 0xDC then Str(|p|, Number(p))
    else if m < 0xDE then Array(|p|, Number(p))
    else if m < 0xE0 then Map(|p|, Number(p))
    else NegativeFixnum(m as int - 256)
  }

  /** `cmp_read_object` on the bytes `b`: the object and how many bytes it takes, or failure. */
  function Parse(b: seq<byte>): (r: Option<(Object, nat)>)
    ensures r.Some? ==> 0 < r.value.1 <= |b|
  {
    if b == [] || PayloadSize(b[0]).None? || |b| < 1 + PayloadSize(b[0]).value then None
    else
      var k := 1 + PayloadSize(b[0]).value;
      Some((Build(b[0], b[1..k]), k))
  }

  // ----- the two directions -----

  lemma MarkerTellsSize(o: Object)
    requires Fits(o)
    ensures PayloadSize(Marker(o)) == Some(|Payload(o)|)
  {
  }

  predicate ReadsBack(o: Object)
    requires Fits(o)
  {
    PayloadSize(Marker(o)) == Some(|Payload(o)|) && Build(Marker(o), Payload(o)) == o
  }

  lemma ReadsBackSized(o: Object)
    requires Fits(o) && (o.Bin? || o.UInt? || o.Str? || o.Array? || o.Map?)
    ensures ReadsBack(o)
  {
    MarkerTellsSize(o);
    NumberOfBigEndian(o.w, if o.UInt? then o.u else o.n);
  }

  lemma ReadsBackFloat(o: Object)
    requires Fits(o) && (o.Float? || o.Double?)
    ensures ReadsBack(o)
  {
    MarkerTellsSize(o);
    NumberOfBigEndian(if o.Float? then 4 else 8, o.bits);
  }

  lemma ReadsBackExt(o: Object)
    requires Fits(o) && o.Ext?
    ensures ReadsBack(o)
  {
    MarkerTellsSize(o);
    NumberOfBigEndian(o.w, o.n);
    assert Payload(o)[..o.w] == BigEndian(o.w, o.n);
  }

  lemma ReadsBackSigned(o: Object)
    requires Fits(o) && o.SInt?
    ensures ReadsBack(o)
  {
    MarkerTellsSize(o);
    var u := Unsigned(o.w, o.s);
    NumberOfBigEndian(o.w, u);
    assert Signed(o.w, u) == o.s;
  }

  lemma HeaderReadsBack(o: Object)
    requires Fits(o)
    ensures ReadsBack(o)
  {
    match o
    case Bin(_, _) => ReadsBackSized(o);
    case Ext(_, _, _) => ReadsBackExt(o);
    case Float(_) => ReadsBackFloat(o);
    case Double(_) => ReadsBackFloat(o);
    case UInt(_, _) => ReadsBackSized(o);
    case SInt(_, _) => ReadsBackSigned(o);
    case Str(_, _) => ReadsBackSized(o);
    case Array(_, _) => ReadsBackSized(o);
    case Map(_, _) => ReadsBackSized(o);
    case _ => MarkerTellsSize(o);
  }

  lemma ParseJoined(m: byte, p: seq<byte>, rest: seq<byte>)
    requires PayloadSize(m) == Some(|p|)
    ensures Parse([m] + p + rest) == Some((Build(m, p), 1 + |p|))
  {
    assert ([m] + p + rest)[1..1 + |p|] == p;
  }

  /** Reading what was written gives the object back and stops where it ends. */
  lemma ParseHeader(o: Object, rest: seq<byte>)
    requires Fits(o)
    ensures Parse(Header(o) + rest) == Some((o, |Header(o)|))
  {
    HeaderReadsBack(o);
    ParseJoined(Marker(o), Payload(o), rest);
  }

  predicate BuildsBack(m: byte, p: seq<byte>)
    requires PayloadSize(m) == Some(|p|)
  {
    var o := Build(m, p);
    Fits(o) && Marker(o) == m && Payload(o) == p
  }

  lemma BuildsImmediate(m: byte, p: seq<byte>)
    requires PayloadSize(m) == Some(|p|) && |p| == 0
    ensures BuildsBack(m, p)
  {
    hide BigEndian, Number;
    assert m < 0xC4 || m >= 0xE0;
  }

  lemma BuildsBinary(m: byte, p: seq<byte>)
    requires PayloadSize(m) == Some(|p|) && 0xC4 <= m < 0xC7
    ensures BuildsBack(m, p)
  {
    BigEndianOfNumber(p);
  }

  lemma BuildsExt(m: byte, p: seq<byte>)
    requires PayloadSize(m) == Some(|p|) && 0xC7 <= m < 0xCA
    ensures BuildsBack(m, p)
  {
    hide BigEndian, Number;
    var size, last := p[..|p| - 1], p[|p| - 1];
    BigEndianOfNumber(size);
    assert p == size + [last] && TypeByte(ByteType(last)) == last;
    assert |size| == WidthOf(m - 0xC7) && Narrow(|size|);
  }

  lemma BuildsFloat(m: byte, p: seq<byte>)
    requires PayloadSize(m) == Some(|p|) && 0xCA <= m < 0xCC
    ensures BuildsBack(m, p)
  {
    BigEndianOfNumber(p);
  }

  lemma BuildsUnsigned(m: byte, p: seq<byte>)
    requires PayloadSize(m) == Some(|p|) && 0xCC <= m < 0xD0
    ensures BuildsBack(m, p)
  {
    BigEndianOfNumber(p);
  }

  lemma BuildsSigned(m: byte, p: seq<byte>)
    requires PayloadSize(m) == Some(|p|) && 0xD0 <= m < 0xD4
    ensures BuildsBack(m, p)
  {
    BigEndianOfNumber(p);
    var v := Number(p);
    assert Unsigned(|p|, Signed(|p|, v)) == v;
  }

  lemma BuildsFixExt(m: byte, p: seq<byte>)
    requires PayloadSize(m) == Some(|p|) && 0xD4 <= m < 0xD9
    ensures BuildsBack(m, p)
  {
    assert p == [TypeByte(ByteType(p[0]))];
  }

  lemma BuildsSized(m: byte, p: seq<byte>)
    requires PayloadSize(m) == Some(|p|) && 0xD9 <= m < 0xE0
    ensures BuildsBack(m, p)
  {
    hide BigEndian, Number;
    BigEndianOfNumber(p);
    assert |p| == 1 || |p| == 2 || |p| == 4;
  }

  lemma BuildFits(m: byte, p: seq<byte>)
    requires PayloadSize(m) == Some(|p|)
    ensures BuildsBack(m, p)
  {
    if p == [] {
      BuildsImmediate(m, p);
    } else if m < 0xC7 {
      BuildsBinary(m, p);
    } else if m < 0xCA {
      BuildsExt(m, p);
    } else if m < 0xCC {
      BuildsFloat(m, p);
    } else if m < 0xD0 {
      BuildsUnsigned(m, p);
    } else if m < 0xD4 {
      BuildsSigned(m, p);
    } else if m < 0xD9 {
      BuildsFixExt(m, p);
    } else {
      BuildsSized(m, p);
    }
  }

  /** Re-encoding is the identity: writing the object that was read gives exactly the bytes read. */
  lemma HeaderOfParse(b: seq<byte>)
    requires Parse(b).Some?
    ensures Fits(Parse(b).value.0) && Header(Parse(b).value.0) == b[..Parse(b).value.1]
  {
    BuildFits(b[0], b[1..Parse(b).value.1]);
  }
}
