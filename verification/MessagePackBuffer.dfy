/** cmp/cmp.c over its bounded buffer with a reader and a writer offset. */
module MessagePackBuffer {
  import opened Basics
  import opened Bytes
  import opened MessagePack
  import opened MessagePackItems

  /** What an attempt to write `enc` at offset `from` leaves behind: on success exactly `enc`, on
      failure a proper prefix of it; nothing before `from` or from the new offset on changes. */
  predicate Written(before: seq<byte>, from: nat, after: seq<byte>, to: nat, size: nat, enc: seq<byte>, ok: bool) {
    && from <= to <= size <= |before| && to - from <= |enc|
    && after == before[..from] + enc[..to - from] + before[to..]
    && (ok <==> from + |enc| <= size)
    && (ok <==> to == from + |enc|)
  }

  lemma WrittenThen(b0: seq<byte>, from: nat, b1: seq<byte>, mid: nat, b2: seq<byte>, to: nat, size: nat,
                    e1: seq<byte>, e2: seq<byte>, ok: bool)
    requires Written(b0, from, b1, mid, size, e1, true) && Written(b1, mid, b2, to, size, e2, ok)
    ensures Written(b0, from, b2, to, size, e1 + e2, ok)
  {
    assert b1[..mid] == b0[..from] + e1;
    assert b1[to..] == b0[to..];
    assert (e1 + e2)[..to - from] == e1 + e2[..to - mid];
  }

  lemma WrittenStops(b0: seq<byte>, from: nat, b1: seq<byte>, to: nat, size: nat, e1: seq<byte>, e2: seq<byte>)
    requires Written(b0, from, b1, to, size, e1, false)
    ensures Written(b0, from, b1, to, size, e1 + e2, false)
  {
    assert (e1 + e2)[..to - from] == e1[..to - from];
  }

  /** The header of an extension without its type. */
  function ExtSize(t: int, n: nat): seq<byte>
    requires Int8(t) && n < TWO32
  {
    ExtFits(t, n);
    var o := ExtObject(t, n);
    if o.FixExt? then [Marker(o)] else [Marker(o)] + BigEndian(o.w, n)
  }

  class Context {
    const buf: array<byte>
    const size: nat
    var readerOffset: nat
    var writerOffset: nat

    predicate Valid()
      reads this
    {
      readerOffset <= size && writerOffset <= size <= buf.Length
    }

    /** `cmp_init` */
    constructor (buf: array<byte>, size: nat)
      requires size <= buf.Length
      ensures Valid() && this.buf == buf && this.size == size && readerOffset == writerOffset == 0
    {
      this.buf, this.size := buf, size;
      readerOffset, writerOffset := 0, 0;
    }

    // ----- writing -----

    /** `string_writer` */
    method Write(data: seq<byte>) returns (count: nat)
      requires Valid()
      modifies this`writerOffset, buf
      ensures Valid()
      ensures Written(old(buf[..]), old(writerOffset), buf[..], writerOffset, size, data,
                old(writerOffset) + |data| <= size)
      ensures count == if old(writerOffset) + |data| <= size then |data| else 0
      ensures old(writerOffset) + |data| > size ==> writerOffset == old(writerOffset)
    {
      if writerOffset + |data| > size {
        return 0;
      }
      forall i | 0 <= i < |data| {
        buf[writerOffset + i] := data[i];
      }
      writerOffset := writerOffset + |data|;
      return |data|;
    }

    /** `write_type_marker` and `write_fixed_value` */
    method WriteByte(x: byte) returns (ok: bool)
      requires Valid()
      modifies this`writerOffset, buf
      ensures Valid()
      ensures Written(old(buf[..]), old(writerOffset), buf[..], writerOffset, size, [x], ok)
    {
      var count := Write([x]);
      return count == 1;
    }

    /** A type marker followed by a big-endian number of `w` bytes. */
    method WriteSized(marker: byte, w: nat, v: nat) returns (ok: bool)
      requires Valid() && 0 < w && v < Span(w)
      modifies this`writerOffset, buf
      ensures Valid()
      ensures Written(old(buf[..]), old(writerOffset), buf[..], writerOffset, size, [marker] + BigEndian(w, v), ok)
    {
      ok := WriteByte(marker);
      ghost var b1, mid := buf[..], writerOffset;
      if !ok {
        WrittenStops(old(buf[..]), old(writerOffset), b1, mid, size, [marker], BigEndian(w, v));
        return false;
      }
      var count := Write(BigEndian(w, v));
      ok := count != 0;
      WrittenThen(old(buf[..]), old(writerOffset), b1, mid, buf[..], writerOffset, size, [marker], BigEndian(w, v), ok);
    }

    /** The data behind a header: nothing at all when it is empty. */
    method WriteData(data: seq<byte>) returns (ok: bool)
      requires Valid()
      modifies this`writerOffset, buf
      ensures Valid()
      ensures Written(old(buf[..]), old(writerOffset), buf[..], writerOffset, size, data, ok)
    {
      if |data| == 0 {
        return true;
      }
      var count := Write(data);
      return count != 0;
    }

    /** `cmp_write_uinteger` */
    method WriteUInteger(u: nat) returns (ok: bool)
      requires Valid() && u < TWO64
      modifies this`writerOffset, buf
      ensures Valid()
      ensures Fits(UnsignedObject(u))
      ensures Written(old(buf[..]), old(writerOffset), buf[..], writerOffset, size, Header(UnsignedObject(u)), ok)
    {
      Spans();
      hide Written, Span;
      if u <= 0x7F {
        assert Header(UnsignedObject(u)) == [u];
        ok := WriteByte(u);
      } else if u <= 0xFF {
        ok := WriteSized(0xCC, 1, u);
      } else if u <= 0xFFFF {
        ok := WriteSized(0xCD, 2, u);
      } else if u <= 0xFFFF_FFFF {
        ok := WriteSized(0xCE, 4, u);
      } else {
        ok := WriteSized(0xCF, 8, u);
      }
    }

    /** `cmp_write_integer` */
    method WriteInteger(d: int) returns (ok: bool)
      requires Valid() && -TWO63 <= d < TWO63
      modifies this`writerOffset, buf
      ensures Valid()
      ensures Fits(IntegerObject(d))
      ensures Written(old(buf[..]), old(writerOffset), buf[..], writerOffset, size, Header(IntegerObject(d)), ok)
    {
      Spans();
      hide Written, Span;
      if d >= 0 {
        ok := WriteUInteger(d);
      } else if d >= -32 {
        assert Header(IntegerObject(d)) == [256 + d];
        ok := WriteByte(256 + d);
      } else if d >= -128 {
        ok := WriteSized(0xD0, 1, d + Span(1));
      } else if d >= -32768 {
        ok := WriteSized(0xD1, 2, d + Span(2));
      } else if d >= -TWO31 {
        ok := WriteSized(0xD2, 4, d + Span(4));
      } else {
        ok := WriteSized(0xD3, 8, d + Span(8));
      }
    }

    method WriteStrHeader(n: nat) returns (ok: bool)
      requires Valid() && n < TWO32
      modifies this`writerOffset, buf
      ensures Valid()
      ensures Fits(StrObject(n))
      ensures Written(old(buf[..]), old(writerOffset), buf[..], writerOffset, size, Header(StrObject(n)), ok)
    {
      SizesFit(n);
      Spans();
      hide Written, Span;
      if n <= 0x1F {
        ok := WriteByte(0xA0 + n);
      } else if n <= 0xFF {
        ok := WriteSized(0xD9, 1, n);
      } else if n <= 0xFFFF {
        ok := WriteSized(0xDA, 2, n);
      } else {
        ok := WriteSized(0xDB, 4, n);
      }
    }

    method WriteBinHeader(n: nat) returns (ok: bool)
      requires Valid() && n < TWO32
      modifies this`writerOffset, buf
      ensures Valid()
      ensures Fits(BinObject(n))
      ensures Written(old(buf[..]), old(writerOffset), buf[..], writerOffset, size, Header(BinObject(n)), ok)
    {
      SizesFit(n);
      Spans();
      hide Written, Span;
      if n <= 0xFF {
        ok := WriteSized(0xC4, 1, n);
      } else if n <= 0xFFFF {
        ok := WriteSized(0xC5, 2, n);
      } else {
        ok := WriteSized(0xC6, 4, n);
      }
    }

    /** `cmp_write_array` */
    method WriteArray(n: nat) returns (ok: bool)
      requires Valid() && n < TWO32
      modifies this`writerOffset, buf
      ensures Valid()
      ensures Fits(ArrayObject(n))
      ensures Written(old(buf[..]), old(writerOffset), buf[..], writerOffset, size, Header(ArrayObject(n)), ok)
    {
      SizesFit(n);
      Spans();
      hide Written, Span;
      if n <= 0xF {
        ok := WriteByte(0x90 + n);
      } else if n <= 0xFFFF {
        ok := WriteSized(0xDC, 2, n);
      } else {
        ok := WriteSized(0xDD, 4, n);
      }
    }

    /** `cmp_write_map` */
    method WriteMap(n: nat) returns (ok: bool)
      requires Valid() && n < TWO32
      modifies this`writerOffset, buf
      ensures Valid()
      ensures Fits(MapObject(n))
      ensures Written(old(buf[..]), old(writerOffset), buf[..], writerOffset, size, Header(MapObject(n)), ok)
    {
      SizesFit(n);
      Spans();
      hide Written, Span;
      if n <= 0xF {
        ok := WriteByte(0x80 + n);
      } else if n <= 0xFFFF {
        ok := WriteSized(0xDE, 2, n);
      } else {
        ok := WriteSized(0xDF, 4, n);
      }
    }

    /** Goes on with `data` if the bytes `head` before it could be written. */
    method ContinueWith(data: seq<byte>, done: bool, ghost head: seq<byte>, ghost before: seq<byte>, ghost from: nat)
      returns (ok: bool)
      requires Valid() && Written(before, from, buf[..], writerOffset, size, head, done)
      modifies this`writerOffset, buf
      ensures Valid()
      ensures Written(before, from, buf[..], writerOffset, size, head + data, ok)
    {
      ghost var b1, mid := buf[..], writerOffset;
      if !done {
        WrittenStops(before, from, b1, mid, size, head, data);
        return false;
      }
      ok := WriteData(data);
      WrittenThen(before, from, b1, mid, buf[..], writerOffset, size, head, data, ok);
    }

    /** The marker of an extension, and its size when it is not one of the fixed ones. */
    method WriteExtSize(t: int, n: nat) returns (ok: bool)
      requires Valid() && Int8(t) && n < TWO32
      modifies this`writerOffset, buf
      ensures Valid()
      ensures Fits(ExtObject(t, n))
      ensures Written(old(buf[..]), old(writerOffset), buf[..], writerOffset, size, ExtSize(t, n), ok)
    {
      ExtFits(t, n);
      Spans();
      hide Written, Span;
      if n == 1 {
        ok := WriteByte(0xD4);
      } else if n == 2 {
        ok := WriteByte(0xD5);
      } else if n == 4 {
        ok := WriteByte(0xD6);
      } else if n == 8 {
        ok := WriteByte(0xD7);
      } else if n == 16 {
        ok := WriteByte(0xD8);
      } else if n <= 0xFF {
        ok := WriteSized(0xC7, 1, n);
      } else if n <= 0xFFFF {
        ok := WriteSized(0xC8, 2, n);
      } else {
        ok := WriteSized(0xC9, 4, n);
      }
    }

    /** The header of `cmp_write_ext`: the size and the type. */
    method WriteExtHeader(t: int, n: nat) returns (ok: bool)
      requires Valid() && Int8(t) && n < TWO32
      modifies this`writerOffset, buf
      ensures Valid()
      ensures Fits(ExtObject(t, n))
      ensures Written(old(buf[..]), old(writerOffset), buf[..], writerOffset, size, Header(ExtObject(t, n)), ok)
    {
      hide Written, Span, Marker;
      ok := WriteExtSize(t, n);
      assert Header(ExtObject(t, n)) == ExtSize(t, n) + [TypeByte(t)];
      ok := ContinueWith([TypeByte(t)], ok, ExtSize(t, n), old(buf[..]), old(writerOffset));
    }

    /** `cmp_write_str` */
    method WriteStr(data: seq<byte>) returns (ok: bool)
      requires Valid() && |data| < TWO32
      modifies this`writerOffset, buf
      ensures Valid()
      ensures Fits(StrObject(|data|))
      ensures Written(old(buf[..]), old(writerOffset), buf[..], writerOffset, size,
                Header(StrObject(|data|)) + data, ok)
    {
      ok := WriteStrHeader(|data|);
      ok := ContinueWith(data, ok, Header(StrObject(|data|)), old(buf[..]), old(writerOffset));
    }

    /** `cmp_write_bin` */
    method WriteBin(data: seq<byte>) returns (ok: bool)
      requires Valid() && |data| < TWO32
      modifies this`writerOffset, buf
      ensures Valid()
      ensures Fits(BinObject(|data|))
      ensures Written(old(buf[..]), old(writerOffset), buf[..], writerOffset, size,
                Header(BinObject(|data|)) + data, ok)
    {
      ok := WriteBinHeader(|data|);
      ok := ContinueWith(data, ok, Header(BinObject(|data|)), old(buf[..]), old(writerOffset));
    }

    /** `cmp_write_ext`: unlike the string and binary writers it passes an empty data block on to
        `string_writer`, whose count of 0 it takes for failure. */
    method WriteExt(t: int, data: seq<byte>) returns (ok: bool)
      requires Valid() && Int8(t) && |data| < TWO32
      modifies this`writerOffset, buf
      ensures Valid()
      ensures Fits(ExtObject(t, |data|))
      ensures ok <==> old(writerOffset) + |Header(ExtObject(t, |data|)) + data| <= size && data != []
      ensures Written(old(buf[..]), old(writerOffset), buf[..], writerOffset, size,
        Header(ExtObject(t, |data|)) + data, old(writerOffset) + |Header(ExtObject(t, |data|)) + data| <= size)
    {
      var done := WriteExtHeader(t, |data|);
      ok := ContinueWith(data, done, Header(ExtObject(t, |data|)), old(buf[..]), old(writerOffset));
      ok := ok && |data| != 0;
    }

    method WriteSizedObject(o: Object) returns (ok: bool)
      requires Valid() && Fits(o) && (o.Bin? || o.UInt? || o.Str? || o.Array? || o.Map?)
      modifies this`writerOffset, buf
      ensures Valid()
      ensures Written(old(buf[..]), old(writerOffset), buf[..], writerOffset, size, Header(o), ok)
    {
      hide Written;
      match o {
        case Bin(w, n) => ok := WriteSized(0xC4 + Rank(w), w, n);
        case UInt(w, u) => ok := WriteSized(0xCC + Rank(w), w, u);
        case Str(w, n) => ok := WriteSized(0xD9 + Rank(w), w, n);
        case Array(w, n) => ok := WriteSized(0xDC + Rank(w) - 1, w, n);
        case Map(w, n) => ok := WriteSized(0xDE + Rank(w) - 1, w, n);
      }
    }

    method WriteOtherObject(o: Object) returns (ok: bool)
      requires Valid() && Fits(o) && (o.Float? || o.Double? || o.SInt? || o.Ext? || o.FixExt?)
      modifies this`writerOffset, buf
      ensures Valid()
      ensures Written(old(buf[..]), old(writerOffset), buf[..], writerOffset, size, Header(o), ok)
    {
      hide Written;
      match o {
        case Float(bits) => ok := WriteSized(0xCA, 4, bits);
        case Double(bits) => ok := WriteSized(0xCB, 8, bits);
        case SInt(w, s) => ok := WriteSized(0xD0 + Rank(w), w, Unsigned(w, s));
        case Ext(w, n, t) =>
          ok := WriteSized(0xC7 + Rank(w), w, n);
          assert Header(o) == [Marker(o)] + BigEndian(w, n) + [TypeByte(t)];
          ok := ContinueWith([TypeByte(t)], ok, [Marker(o)] + BigEndian(w, n), old(buf[..]), old(writerOffset));
        case FixExt(n, t) =>
          ok := WriteByte(0xD4 + Rank(n));
          ok := ContinueWith([TypeByte(t)], ok, [Marker(o)], old(buf[..]), old(writerOffset));
      }
    }

    /** `cmp_write_object` */
    method WriteObject(o: Object) returns (ok: bool)
      requires Valid() && Fits(o)
      modifies this`writerOffset, buf
      ensures Valid()
      ensures Written(old(buf[..]), old(writerOffset), buf[..], writerOffset, size, Header(o), ok)
    {
      hide Written, Fits;
      if !(o.Bin? || o.UInt? || o.Str? || o.Array? || o.Map? || o.Float? || o.Double? || o.SInt? || o.Ext? ||
           o.FixExt?) {
        assert Header(o) == [Marker(o)];
      }
      match o {
        case PositiveFixnum(u) => ok := WriteByte(u);
        case FixMap(n) => ok := WriteByte(0x80 + n);
        case FixArray(n) => ok := WriteByte(0x90 + n);
        case FixStr(n) => ok := WriteByte(0xA0 + n);
        case Nil => ok := WriteByte(0xC0);
        case Boolean(b) => ok := WriteByte(if b then 0xC3 else 0xC2);
        case NegativeFixnum(s) => ok := WriteByte(256 + s);
        case Bin(_, _) => ok := WriteSizedObject(o);
        case UInt(_, _) => ok := WriteSizedObject(o);
        case Str(_, _) => ok := WriteSizedObject(o);
        case Array(_, _) => ok := WriteSizedObject(o);
        case Map(_, _) => ok := WriteSizedObject(o);
        case _ => ok := WriteOtherObject(o);
      }
    }

    /** The writer for each kind of value. */
    method WriteItem(i: Item) returns (ok: bool)
      requires Valid() && Writable(i)
      modifies this`writerOffset, buf
      ensures Valid()
      ensures Fits(ItemObject(i))
      ensures Written(old(buf[..]), old(writerOffset), buf[..], writerOffset, size, Encode(i), ok)
    {
      assert i.Text? || i.Blob? || i.Extension? || (Fits(ItemObject(i)) ==> Encode(i) == Header(ItemObject(i)));
      match i {
        case Long(d) => ok := WriteInteger(d);
        case ULong(u) => ok := WriteUInteger(u);
        case Text(s) => ok := WriteStr(s);
        case Blob(s) => ok := WriteBin(s);
        case Extension(t, s) => ok := WriteExt(t, s);
        case MapOf(n) => ok := WriteMap(n);
        case ArrayOf(n) => ok := WriteArray(n);
        case Bool(b) => ok := WriteByte(if b then 0xC3 else 0xC2);
        case Null => ok := WriteByte(0xC0);
      }
    }

    // ----- reading -----

    /** The bytes still to be read. */
    function Rest(): seq<byte>
      requires Valid()
      reads this, buf
    {
      buf[readerOffset..size]
    }

    /** `string_reader` */
    method Read(limit: nat) returns (data: Option<seq<byte>>)
      requires Valid()
      modifies this`readerOffset
      ensures Valid()
      ensures data == if limit <= |old(Rest())| then Some(old(Rest())[..limit]) else None
      ensures readerOffset == old(readerOffset) + if data.Some? then limit else 0
    {
      if readerOffset + limit > size {
        return None;
      }
      data := Some(buf[readerOffset..readerOffset + limit]);
      assert data.value == Rest()[..limit];
      readerOffset := readerOffset + limit;
    }

    /** A big-endian number of `w` bytes. */
    method ReadNumber(w: nat) returns (v: Option<nat>)
      requires Valid()
      modifies this`readerOffset
      ensures Valid()
      ensures v == if w <= |old(Rest())| then Some(Number(old(Rest())[..w])) else None
      ensures readerOffset == old(readerOffset) + if v.Some? then w else 0
    {
      var data := Read(w);
      v := if data.Some? then Some(Number(data.value)) else None;
    }

    method ReadExtHeader(m: byte) returns (r: Option<Object>)
      requires Valid() && (0xC7 <= m <= 0xC9 || 0xD4 <= m <= 0xD8)
      modifies this`readerOffset
      ensures Valid() && old(readerOffset) <= readerOffset
      ensures r.Some? <==> PayloadSize(m).Some? && PayloadSize(m).value <= |old(Rest())|
      ensures r.Some? ==>
        && r.value == Build(m, old(Rest())[..PayloadSize(m).value])
        && readerOffset == old(readerOffset) + PayloadSize(m).value
    {
      if m <= 0xC9 {
        var w := WidthOf(m - 0xC7);
        var n := ReadNumber(w);
        if n.None? {
          return None;
        }
        var t := Read(1);
        if t.None? {
          return None;
        }
        r := Some(Ext(w, n.value, ByteType(t.value[0])));
        assert old(Rest())[..w + 1][..w] == old(Rest())[..w];
      } else {
        var t := Read(1);
        if t.None? {
          return None;
        }
        r := Some(FixExt(WidthOf(m - 0xD4), ByteType(t.value[0])));
      }
    }

    /** The markers that a number or an ext type follows. */
    method ReadSized(m: byte) returns (r: Option<Object>)
      requires Valid() && 0xC4 <= m < 0xE0
      modifies this`readerOffset
      ensures Valid() && old(readerOffset) <= readerOffset
      ensures r.Some? <==> PayloadSize(m).Some? && PayloadSize(m).value <= |old(Rest())|
      ensures r.Some? ==>
        && r.value == Build(m, old(Rest())[..PayloadSize(m).value])
        && readerOffset == old(readerOffset) + PayloadSize(m).value
    {
      var v: Option<nat>;
      if m <= 0xC6 {
        v := ReadNumber(WidthOf(m - 0xC4));
        r := if v.Some? then Some(Bin(WidthOf(m - 0xC4), v.value)) else None;
      } else if m <= 0xC9 || 0xD4 <= m <= 0xD8 {
        r := ReadExtHeader(m);
      } else if m == 0xCA {
        v := ReadNumber(4);
        r := if v.Some? then Some(Float(v.value)) else None;
      } else if m == 0xCB {
        v := ReadNumber(8);
        r := if v.Some? then Some(Double(v.value)) else None;
      } else if m <= 0xCF {
        v := ReadNumber(WidthOf(m - 0xCC));
        r := if v.Some? then Some(UInt(WidthOf(m - 0xCC), v.value)) else None;
      } else if m <= 0xD3 {
        v := ReadNumber(WidthOf(m - 0xD0));
        r := if v.Some? then Some(SInt(WidthOf(m - 0xD0), Signed(WidthOf(m - 0xD0), v.value))) else None;
      } else if m <= 0xDB {
        v := ReadNumber(WidthOf(m - 0xD9));
        r := if v.Some? then Some(Str(WidthOf(m - 0xD9), v.value)) else None;
      } else if m <= 0xDD {
        v := ReadNumber(WidthOf(m - 0xDC + 1));
        r := if v.Some? then Some(Array(WidthOf(m - 0xDC + 1), v.value)) else None;
      } else {
        v := ReadNumber(WidthOf(m - 0xDE + 1));
        r := if v.Some? then Some(Map(WidthOf(m - 0xDE + 1), v.value)) else None;
      }
    }

    /** What `cmp_read_object` does behind the marker `m`. */
    method ReadPayload(m: byte) returns (r: Option<Object>)
      requires Valid()
      modifies this`readerOffset
      ensures Valid() && old(readerOffset) <= readerOffset
      ensures r.Some? <==> PayloadSize(m).Some? && PayloadSize(m).value <= |old(Rest())|
      ensures r.Some? ==>
        && r.value == Build(m, old(Rest())[..PayloadSize(m).value])
        && readerOffset == old(readerOffset) + PayloadSize(m).value
    {
      if m <= 0x7F {
        r := Some(PositiveFixnum(m));
      } else if m <= 0x8F {
        r := Some(FixMap(m - 0x80));
      } else if m <= 0x9F {
        r := Some(FixArray(m - 0x90));
      } else if m <= 0xBF {
        r := Some(FixStr(m - 0xA0));
      } else if m == 0xC0 {
        r := Some(Nil);
      } else if m == 0xC2 {
        r := Some(Boolean(false));
      } else if m == 0xC3 {
        r := Some(Boolean(true));
      } else if m >= 0xE0 {
        r := Some(NegativeFixnum(m as int - 256));
      } else if m == 0xC1 {
        r := None;
      } else {
        r := ReadSized(m);
      }
    }

    /** `cmp_read_object` */
    method ReadObject() returns (r: Option<Object>)
      requires Valid()
      modifies this`readerOffset
      ensures Valid() && old(readerOffset) <= readerOffset
      ensures r.Some? <==> Parse(old(Rest())).Some?
      ensures r.Some? ==>
        && r.value == Parse(old(Rest())).value.0
        && readerOffset == old(readerOffset) + Parse(old(Rest())).value.1
    {
      ghost var b := Rest();
      var marker := Read(1);
      if marker.None? {
        return None;
      }
      assert Rest() == b[1..];
      r := ReadPayload(marker.value[0]);
      if r.Some? {
        assert b[1..][..|b[1..readerOffset - old(readerOffset)]|] == b[1..readerOffset - old(readerOffset)];
      }
    }

    /** The reader for each kind of value: `cmp_read_object`, the case test on the object, and then
        the data of a string, binary or ext. */
    method ReadItem(k: Kind) returns (r: Option<Item>)
      requires Valid()
      modifies this`readerOffset
      ensures Valid() && old(readerOffset) <= readerOffset
      ensures r.Some? <==> Decode(k, old(Rest())).Some?
      ensures r.Some? ==>
        && r.value == Decode(k, old(Rest())).value.0
        && readerOffset == old(readerOffset) + Decode(k, old(Rest())).value.1
    {
      hide Parse, Accept, WithData;
      ghost var b := Rest();
      var o := ReadObject();
      if o.None? || Accept(k, o.value).None? {
        return None;
      }
      var (i, n) := Accept(k, o.value).value;
      assert Rest() == b[Parse(b).value.1..];
      var data := Read(n);
      if data.None? {
        return None;
      }
      assert data.value == b[Parse(b).value.1..Parse(b).value.1 + n];
      r := Some(WithData(i, data.value));
    }
  }

  /** A successful write adds its bytes to those written since `start`; a failed one does not fit. */
  lemma WrittenExtends(before: seq<byte>, start: nat, from: nat, after: seq<byte>, to: nat, size: nat,
                       enc: seq<byte>, ok: bool)
    requires start <= from && Written(before, from, after, to, size, enc, ok)
    ensures ok <==> from + |enc| <= size
    ensures ok ==> to == from + |enc| && after[start..to] == before[start..from] + enc
  {
  }

  lemma {:induction false} KindsAt(items: seq<Item>, k: nat)
    requires k < |items|
    ensures KindsOf(items)[k] == KindOf(items[k])
  {
    if k > 0 {
      KindsAt(items[1..], k - 1);
    }
  }

  /** The writers one after the other, up to the first that fails: they all succeed exactly when
      everything fits, and then the buffer holds all the encodings in a row. */
  method WriteAll(ctx: Context, items: seq<Item>) returns (ok: bool)
    requires ctx.Valid() && AllWritable(items)
    modifies ctx`writerOffset, ctx.buf
    ensures ctx.Valid()
    ensures ok <==> old(ctx.writerOffset) + |EncodeAll(items)| <= ctx.size
    ensures ok ==> ctx.writerOffset == old(ctx.writerOffset) + |EncodeAll(items)|
    ensures ok ==> ctx.buf[old(ctx.writerOffset)..ctx.writerOffset] == EncodeAll(items)
  {
    hide Encode, Writable;
    ghost var start := ctx.writerOffset;
    var k := 0;
    while k < |items|
      invariant k <= |items| && ctx.Valid() && start <= ctx.writerOffset
      invariant EncodeAll(items) == ctx.buf[start..ctx.writerOffset] + EncodeAll(items[k..])
    {
      ghost var before, from := ctx.buf[..], ctx.writerOffset;
      assert items[k..][0] == items[k] && items[k..][1..] == items[k + 1..];
      ok := ctx.WriteItem(items[k]);
      WrittenExtends(before, start, from, ctx.buf[..], ctx.writerOffset, ctx.size, Encode(items[k]), ok);
      if !ok {
        return;
      }
      k := k + 1;
    }
    ok := true;
  }

  /** Reading with the readers that match `items`, when the buffer holds their encoding. */
  method ReadAll(ctx: Context, kinds: seq<Kind>, ghost items: seq<Item>, ghost tail: seq<byte>)
    returns (back: seq<Item>)
    requires ctx.Valid() && AllWritable(items) && kinds == KindsOf(items)
    requires ctx.Rest() == EncodeAll(items) + tail
    modifies ctx`readerOffset
    ensures ctx.Valid() && back == items && ctx.Rest() == tail
  {
    hide Encode, Writable, KindOf, Decode;
    back := [];
    while |back| < |kinds|
      invariant ctx.Valid() && back <= items
      invariant ctx.Rest() == EncodeAll(items[|back|..]) + tail
    {
      ghost var i, rest := items[|back|], EncodeAll(items[|back| + 1..]) + tail;
      assert items[|back|..][0] == i && items[|back|..][1..] == items[|back| + 1..];
      KindsAt(items, |back|);
      DecodeEncode(i, rest);
      assert ctx.Rest() == Encode(i) + rest;
      var r := ctx.ReadItem(kinds[|back|]);
      back := back + [r.value];
    }
  }

  /** Any sequence of writes that fits, followed by the matching reads: the same values come back
      and the reader offset ends at the writer offset. */
  method WriteThenRead(ctx: Context, items: seq<Item>) returns (back: seq<Item>)
    requires ctx.Valid() && AllWritable(items) && ctx.readerOffset == ctx.writerOffset
    requires ctx.writerOffset + |EncodeAll(items)| <= ctx.size
    modifies ctx`readerOffset, ctx`writerOffset, ctx.buf
    ensures ctx.Valid() && back == items
    ensures ctx.readerOffset == ctx.writerOffset == old(ctx.writerOffset) + |EncodeAll(items)|
  {
    var ok := WriteAll(ctx, items);
    assert ok;
    ghost var tail := ctx.buf[ctx.writerOffset..ctx.size];
    assert ctx.Rest() == EncodeAll(items) + tail;
    back := ReadAll(ctx, KindsOf(items), items, tail);
  }
}
