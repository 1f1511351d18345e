/** The typed values the writers and readers of cmp/cmp.c exchange
    (MessagePack specification, section "Serialization: type to format conversion"). */
module MessagePackItems {
  import opened Basics
  import opened Bytes
  import opened MessagePack

  // ----- choosing the format -----

  /** `cmp_write_uinteger` */
  function UnsignedObject(u: nat): Object {
    if u <= 0x7F then PositiveFixnum(u)
    else if u <= 0xFF then UInt(1, u)
    else if u <= 0xFFFF then UInt(2, u)
    else if u <= 0xFFFF_FFFF then UInt(4, u)
    else UInt(8, u)
  }

  /** `cmp_write_integer` */
  function IntegerObject(d: int): Object {
    if d >= 0 then UnsignedObject(d)
    else if d >= -32 then NegativeFixnum(d)
    else if d >= -128 then SInt(1, d)
    else if d >= -32768 then SInt(2, d)
    else if d >= -TWO31 then SInt(4, d)
    else SInt(8, d)
  }

  function StrObject(n: nat): Object {
    if n <= 0x1F then FixStr(n) else if n <= 0xFF then Str(1, n) else if n <= 0xFFFF then Str(2, n) else Str(4, n)
  }

  function BinObject(n: nat): Object {
    if n <= 0xFF then Bin(1, n) else if n <= 0xFFFF then Bin(2, n) else Bin(4, n)
  }

  function ArrayObject(n: nat): Object {
    if n <= 0xF then FixArray(n) else if n <= 0xFFFF then Array(2, n) else Array(4, n)
  }

  function MapObject(n: nat): Object {
    if n <= 0xF then FixMap(n) else if n <= 0xFFFF then Map(2, n) else Map(4, n)
  }

  function ExtObject(t: int, n: nat): Object {
    if n == 1 || n == 2 || n == 4 || n == 8 || n == 16 then FixExt(n, t)
    else if n <= 0xFF then Ext(1, n, t)
    else if n <= 0xFFFF then Ext(2, n, t)
    else Ext(4, n, t)
  }

  lemma {:induction false} SizesFit(n: nat)
    requires n < TWO32
    ensures Fits(StrObject(n)) && Fits(BinObject(n)) && Fits(ArrayObject(n)) && Fits(MapObject(n))
  {
    Spans();
  }

  lemma {:induction false} ExtFits(t: int, n: nat)
    requires n < TWO32 && Int8(t)
    ensures Fits(ExtObject(t, n))
  {
    Spans();
  }

  lemma {:induction false} IntegersFit(d: int)
    ensures -TWO63 <= d < TWO64 ==> Fits(IntegerObject(d))
  {
    Spans();
  }

  // ----- what the readers accept -----

  /** `cmp_read_long` */
  function AsLong(o: Object): Option<int> {
    match o
    case PositiveFixnum(u) => Some(u)
    case NegativeFixnum(s) => Some(s)
    case SInt(_, s) => Some(s)
    case UInt(w, u) => if w < 8 || u < TWO63 then Some(u) else None
    case _ => None
  }

  /** `cmp_read_ulong` */
  function AsULong(o: Object): Option<nat> {
    match o
    case PositiveFixnum(u) => Some(u)
    case UInt(_, u) => Some(u)
    case _ => None
  }

  function AsStr(o: Object): Option<nat> {
    match o
    case FixStr(n) => Some(n)
    case Str(_, n) => Some(n)
    case _ => None
  }

  function AsBin(o: Object): Option<nat> {
    match o
    case Bin(_, n) => Some(n)
    case _ => None
  }

  function AsArray(o: Object): Option<nat> {
    match o
    case FixArray(n) => Some(n)
    case Array(_, n) => Some(n)
    case _ => None
  }

  function AsMap(o: Object): Option<nat> {
    match o
    case FixMap(n) => Some(n)
    case Map(_, n) => Some(n)
    case _ => None
  }

  function AsExt(o: Object): Option<(int, nat)> {
    match o
    case FixExt(n, t) => Some((t, n))
    case Ext(_, n, t) => Some((t, n))
    case _ => None
  }

  lemma {:induction false} IntegerReadsBack(d: int)
    ensures d < TWO63 ==> AsLong(IntegerObject(d)) == Some(d)
    ensures d >= 0 ==> AsULong(UnsignedObject(d)) == Some(d)
  {
  }

  /** No shorter byte string is read as the same integer. */
  lemma {:induction false} IntegerIsShortest(d: int, b: seq<byte>)
    requires -TWO63 <= d < TWO64 && Parse(b).Some?
    requires AsLong(Parse(b).value.0) == Some(d) || (d >= 0 && AsULong(Parse(b).value.0) == Some(d))
    ensures Fits(IntegerObject(d)) && |Header(IntegerObject(d))| <= Parse(b).value.1
  {
    hide Parse;
    var (o, k) := Parse(b).value;
    HeaderOfParse(b);
    IntegersFit(d);
    assert |Header(o)| == k;
    Spans();
  }

  /** The header chosen for a text, binary data, an array or a map reads as its size, and no shorter
      header of the same kind does. */
  lemma {:induction false} SizeIsShortest(n: nat, b: seq<byte>)
    requires n < TWO32 && Parse(b).Some?
    ensures AsStr(StrObject(n)) == AsBin(BinObject(n)) == AsArray(ArrayObject(n)) == AsMap(MapObject(n)) == Some(n)
    ensures AsStr(Parse(b).value.0) == Some(n) ==>
      Fits(StrObject(n)) && |Header(StrObject(n))| <= Parse(b).value.1
    ensures AsBin(Parse(b).value.0) == Some(n) ==>
      Fits(BinObject(n)) && |Header(BinObject(n))| <= Parse(b).value.1
    ensures AsArray(Parse(b).value.0) == Some(n) ==>
      Fits(ArrayObject(n)) && |Header(ArrayObject(n))| <= Parse(b).value.1
    ensures AsMap(Parse(b).value.0) == Some(n) ==>
      Fits(MapObject(n)) && |Header(MapObject(n))| <= Parse(b).value.1
  {
    hide Parse;
    var (o, k) := Parse(b).value;
    HeaderOfParse(b);
    SizesFit(n);
    assert |Header(o)| == k;
    Spans();
  }

  /** The same for extension data of type `t`. */
  lemma {:induction false} ExtIsShortest(t: int, n: nat, b: seq<byte>)
    requires n < TWO32 && Int8(t) && Parse(b).Some?
    ensures AsExt(ExtObject(t, n)) == Some((t, n))
    ensures AsExt(Parse(b).value.0) == Some((t, n)) ==>
      Fits(ExtObject(t, n)) && |Header(ExtObject(t, n))| <= Parse(b).value.1
  {
    hide Parse;
    var (o, k) := Parse(b).value;
    HeaderOfParse(b);
    ExtFits(t, n);
    assert |Header(o)| == k;
    Spans();
  }

  // ----- typed values -----

  datatype Item =
    | Long(d: int)
    | ULong(u: nat)
    | Text(s: seq<byte>)
    | Blob(s: seq<byte>)
    | Extension(t: int, s: seq<byte>)
    | MapOf(n: nat)
    | ArrayOf(n: nat)
    | Bool(b: bool)
    | Null

  /** The arguments the writers take, apart from an ext without data. */
  predicate Writable(i: Item) {
    match i
    case Long(d) => -TWO63 <= d < TWO63
    case ULong(u) => u < TWO64
    case Text(s) => |s| < TWO32
    case Blob(s) => |s| < TWO32
    case Extension(t, s) => Int8(t) && 0 < |s| < TWO32
    case MapOf(n) => n < TWO32
    case ArrayOf(n) => n < TWO32
    case _ => true
  }

  function ItemObject(i: Item): Object {
    match i
    case Long(d) => IntegerObject(d)
    case ULong(u) => UnsignedObject(u)
    case Text(s) => StrObject(|s|)
    case Blob(s) => BinObject(|s|)
    case Extension(t, s) => ExtObject(t, |s|)
    case MapOf(n) => MapObject(n)
    case ArrayOf(n) => ArrayObject(n)
    case Bool(b) => Boolean(b)
    case Null => Nil
  }

  function ItemData(i: Item): seq<byte> {
    if i.Text? || i.Blob? || i.Extension? then i.s else []
  }

  lemma {:induction false} ItemFits(i: Item)
    requires Writable(i)
    ensures Fits(ItemObject(i))
  {
    match i
    case Long(d) => IntegersFit(d);
    case ULong(u) => IntegersFit(u);
    case Text(s) => SizesFit(|s|);
    case Blob(s) => SizesFit(|s|);
    case Extension(t, s) => ExtFits(t, |s|);
    case MapOf(n) => SizesFit(n);
    case ArrayOf(n) => SizesFit(n);
    case _ =>
  }

  function Encode(i: Item): seq<byte>
    requires Fits(ItemObject(i))
  {
    Header(ItemObject(i)) + ItemData(i)
  }

  /** Which reader is called; `cmp_read_bin` also takes the room of the caller's buffer. */
  datatype Kind =
    | AnyLong | AnyULong | AnyText | AnyBlob(room: nat) | AnyExtension | AnyMap | AnyArray | AnyBool | AnyNull

  function KindOf(i: Item): Kind {
    match i
    case Long(_) => AnyLong
    case ULong(_) => AnyULong
    case Text(_) => AnyText
    case Blob(s) => AnyBlob(|s|)
    case Extension(_, _) => AnyExtension
    case MapOf(_) => AnyMap
    case ArrayOf(_) => AnyArray
    case Bool(_) => AnyBool
    case Null => AnyNull
  }

  /** What a reader makes of an object: the value, still without its data, and the data's length. */
  function Accept(k: Kind, o: Object): Option<(Item, nat)> {
    match k
    case AnyLong => if AsLong(o).Some? then Some((Long(AsLong(o).value), 0)) else None
    case AnyULong => if AsULong(o).Some? then Some((ULong(AsULong(o).value), 0)) else None
    case AnyText => if AsStr(o).Some? then Some((Text([]), AsStr(o).value)) else None
    case AnyBlob(room) =>
      if AsBin(o).Some? && AsBin(o).value <= room then Some((Blob([]), AsBin(o).value)) else None
    case AnyExtension =>
      if AsExt(o).Some? then Some((Extension(AsExt(o).value.0, []), AsExt(o).value.1)) else None
    case AnyMap => if AsMap(o).Some? then Some((MapOf(AsMap(o).value), 0)) else None
    case AnyArray => if AsArray(o).Some? then Some((ArrayOf(AsArray(o).value), 0)) else None
    case AnyBool => if o.Boolean? then Some((Bool(o.b), 0)) else None
    case AnyNull => if o.Nil? then Some((Null, 0)) else None
  }

  function WithData(i: Item, s: seq<byte>): Item {
    match i
    case Text(_) => Text(s)
    case Blob(_) => Blob(s)
    case Extension(t, _) => Extension(t, s)
    case _ => i
  }

  /** One read call on the bytes `b`. */
  function Decode(k: Kind, b: seq<byte>): (r: Option<(Item, nat)>)
    ensures r.Some? ==> 0 < r.value.1 <= |b|
  {
    match Parse(b)
    case None => None
    case Some((o, used)) =>
      if Accept(k, o).None? || used + Accept(k, o).value.1 > |b| then None
      else
        var (i, n) := Accept(k, o).value;
        Some((WithData(i, b[used..used + n]), used + n))
  }

  lemma {:induction false} AcceptsOwn(i: Item)
    requires Writable(i)
    ensures var r := Accept(KindOf(i), ItemObject(i));
      r.Some? && r.value.1 == |ItemData(i)| && WithData(r.value.0, ItemData(i)) == i
  {
  }

  /** The matching read gives the value back and consumes exactly what was written. */
  lemma {:induction false} DecodeEncode(i: Item, rest: seq<byte>)
    requires Writable(i)
    ensures Fits(ItemObject(i))
    ensures Decode(KindOf(i), Encode(i) + rest) == Some((i, |Encode(i)|))
  {
    hide Parse, Header, Accept, WithData, ItemData, ItemObject, Writable, Fits;
    ItemFits(i);
    AcceptsOwn(i);
    var o, data := ItemObject(i), ItemData(i);
    ParseHeader(o, data + rest);
    assert Encode(i) + rest == Header(o) + (data + rest);
    assert (Encode(i) + rest)[|Header(o)|..|Encode(i)|] == data;
  }

  lemma AcceptedIsWritable(k: Kind, o: Object, data: seq<byte>)
    requires Fits(o) && Accept(k, o).Some? && |data| == Accept(k, o).value.1
    ensures var i := WithData(Accept(k, o).value.0, data);
      && (Writable(i) || (i.Extension? && Int8(i.t) && i.s == []))
      && (if k.AnyBlob? then i.Blob? && |i.s| <= k.room else KindOf(i) == k)
  {
    Spans();
    match k
    case AnyLong =>
    case AnyULong =>
    case AnyText =>
    case AnyBlob(_) =>
    case AnyExtension =>
    case AnyMap =>
    case AnyArray =>
    case AnyBool =>
    case AnyNull =>
  }

  /** A reader gives back only values of its kind, within their range, binary data only if it fits the
      room; so whatever was read can be written again, except for empty extension data. */
  lemma {:induction false} DecodedIsWritable(k: Kind, b: seq<byte>)
    requires Decode(k, b).Some?
    ensures var i := Decode(k, b).value.0;
      && (Writable(i) || (i.Extension? && Int8(i.t) && i.s == []))
      && (if k.AnyBlob? then i.Blob? && |i.s| <= k.room else KindOf(i) == k)
  {
    hide Parse, Accept, WithData, Writable, Fits;
    var (o, used) := Parse(b).value;
    HeaderOfParse(b);
    AcceptedIsWritable(k, o, b[used..Decode(k, b).value.1]);
  }

  /** The integer an object stands for. */
  function IntegerIn(o: Object): Option<int> {
    match o
    case PositiveFixnum(u) => Some(u)
    case NegativeFixnum(s) => Some(s)
    case UInt(_, u) => Some(u)
    case SInt(_, s) => Some(s)
    case _ => None
  }

  /** The signed reader takes exactly the integers of 64 bits, the unsigned one those written in an
      unsigned format. */
  lemma {:induction false} IntegersAreExact(o: Object, d: int)
    requires Fits(o)
    ensures AsLong(o) == Some(d) <==> IntegerIn(o) == Some(d) && -TWO63 <= d < TWO63
    ensures AsULong(o) == Some(d) <==> IntegerIn(o) == Some(d) && (o.PositiveFixnum? || o.UInt?)
  {
    Spans();
  }

  predicate AllWritable(items: seq<Item>) {
    forall i :: 0 <= i < |items| ==> Writable(items[i])
  }

  function EncodeAll(items: seq<Item>): seq<byte>
    requires AllWritable(items)
  {
    if items == [] then []
    else
      ItemFits(items[0]);
      Encode(items[0]) + EncodeAll(items[1..])
  }

  function DecodeAll(kinds: seq<Kind>, b: seq<byte>): (r: Option<(seq<Item>, nat)>)
    ensures r.Some? ==> r.value.1 <= |b|
    decreases |kinds|
  {
    if kinds == [] then Some(([], 0))
    else
      match Decode(kinds[0], b)
      case None => None
      case Some((i, n)) =>
        match DecodeAll(kinds[1..], b[n..])
        case None => None
        case Some((items, m)) => Some(([i] + items, n + m))
  }

  function KindsOf(items: seq<Item>): (kinds: seq<Kind>)
    ensures |kinds| == |items|
  {
    if items == [] then [] else [KindOf(items[0])] + KindsOf(items[1..])
  }

  lemma {:induction false} DecodeAllCons(k: Kind, kinds: seq<Kind>, first: seq<byte>, rest: seq<byte>, i: Item,
                                         items: seq<Item>, n: nat)
    requires Decode(k, first + rest) == Some((i, |first|)) && DecodeAll(kinds, rest) == Some((items, n))
    ensures DecodeAll([k] + kinds, first + rest) == Some(([i] + items, |first| + n))
  {
    hide Decode;
    assert ([k] + kinds)[1..] == kinds && (first + rest)[|first|..] == rest;
  }

  /** Any sequence of writes, read back by the matching reads. */
  lemma {:induction false} DecodeEncodeAll(items: seq<Item>, rest: seq<byte>)
    requires AllWritable(items)
    ensures DecodeAll(KindsOf(items), EncodeAll(items) + rest) == Some((items, |EncodeAll(items)|))
    decreases |items|
  {
    hide Decode, Encode, KindOf, Writable;
    if items != [] {
      var i, others := items[0], EncodeAll(items[1..]);
      DecodeEncode(i, others + rest);
      DecodeEncodeAll(items[1..], rest);
      DecodeAllCons(KindOf(i), KindsOf(items[1..]), Encode(i), others + rest, i, items[1..], |others|);
      assert EncodeAll(items) + rest == Encode(i) + (others + rest);
      assert [i] + items[1..] == items;
    }
  }
}
