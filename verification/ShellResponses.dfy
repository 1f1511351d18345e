/** The responses of hypervisor/shells/shells.c as bytes: their size decides whether they are
    published at all. */
module ShellResponses {
  import opened Basics
  import opened Bytes
  import opened MessagePack
  import opened MessagePackItems
  import opened MessagePackBuffer
  import opened ShellTable

  function Texts(ss: seq<string>): (items: seq<Item>)
    ensures |items| == |ss|
    ensures forall i :: 0 <= i < |ss| ==> items[i] == Text(Ascii(ss[i]))
  {
    if ss == [] then [] else [Text(Ascii(ss[0]))] + Texts(ss[1..])
  }

  /** What is written for a response: a map header that counts keys and values, then the strings. */
  function Fields(r: Response): seq<Item> {
    [MapOf(|Strings(r)|)] + Texts(Strings(r))
  }

  /** `cmp_write_str` takes 32-bit lengths. */
  predicate Short(ss: seq<string>) {
    forall i :: 0 <= i < |ss| ==> |ss[i]| < TWO32
  }

  lemma {:induction false} TextSize(s: string)
    requires |s| < TWO32
    ensures Fits(ItemObject(Text(Ascii(s)))) && |Encode(Text(Ascii(s)))| == StrSize(|s|)
  {
    SizesFit(|s|);
  }

  lemma {:induction false} TextsSize(ss: seq<string>)
    requires Short(ss)
    ensures AllWritable(Texts(ss)) && |EncodeAll(Texts(ss))| == TotalSize(ss)
  {
    hide Encode;
    if ss != [] {
      TextSize(ss[0]);
      TextsSize(ss[1..]);
      assert Texts(ss)[1..] == Texts(ss[1..]);
    }
  }

  /** The size that decides about a response is the length of its encoding. */
  lemma {:induction false} SizeIsEncoded(r: Response)
    requires Short(Strings(r))
    ensures AllWritable(Fields(r)) && |EncodeAll(Fields(r))| == ResponseSize(r)
  {
    var n := |Strings(r)|;
    TextsSize(Strings(r));
    SizesFit(n);
    assert n <= 10 && |Encode(MapOf(n))| == 1;
    hide Encode, Texts, Strings;
    assert Fields(r)[1..] == Texts(Strings(r));
  }

  /** Writing and publishing a response: the bytes published, if any. */
  method SendResponse(r: Response) returns (published: Option<seq<byte>>)
    requires Short(Strings(r))
    ensures AllWritable(Fields(r))
    ensures published == if FitsBuffer(r) then Some(EncodeAll(Fields(r))) else None
  {
    SizeIsEncoded(r);
    hide Fields, ResponseSize, EncodeAll;
    var buf := new byte[Room(r)];
    var cmp := new Context(buf, Room(r));
    var ok := WriteAll(cmp, Fields(r));
    published := if ok then Some(buf[..cmp.writerOffset]) else None;
  }
}
