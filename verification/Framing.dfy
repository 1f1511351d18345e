/** The messages the server sends the hypervisor over redis: shells/shells.c writes them,
    hypervisor/wredis/wredis.c reads them. */
module Framing {
  import opened Basics
  import opened Bytes
  import opened MessagePack
  import opened MessagePackItems
  import opened MessagePackBuffer

  /** A C string without its final NUL. */
  type Chars = seq<byte>

  predicate NulFree(s: Chars) {
    forall i :: 0 <= i < |s| ==> s[i] != 0
  }

  function Letter(c: char): Chars {
    [c as int % 256]
  }

  datatype Attribute = Attribute(name: Chars, value: Chars)

  type Pair = (Chars, Chars)

  // ----- renaming -----

  /** The table `hm`. */
  function KeyOf(name: Chars): Option<Chars> {
    if name == Ascii("width") then Some(Letter('w'))
    else if name == Ascii("height") then Some(Letter('h'))
    else if name == Ascii("request") then Some(Letter('r'))
    else if name == Ascii("action") then Some(Letter('a'))
    else if name == Ascii("projectid") then Some(Letter('p'))
    else if name == Ascii("shellid") then Some(Letter('s'))
    else if name == Ascii("userid") then Some(Letter('u'))
    else None
  }

  /** The table `action_hm`. */
  function ActionOf(value: Chars): Option<Chars> {
    if value == Ascii("open") then Some(Letter('o'))
    else if value == Ascii("close") then Some(Letter('c'))
    else if value == Ascii("keys") then Some(Letter('k'))
    else if value == Ascii("status") then Some(Letter('s'))
    else if value == Ascii("poweroff") then Some(Letter('p'))
    else if value == Ascii("disconnect") then Some(Letter('d'))
    else if value == Ascii("resize") then Some(Letter('r'))
    else None
  }

  /** The writer passes over these; `strncmp` compares prefixes only. */
  predicate Skipped(a: Attribute) {
    Ascii("gadgetid") <= a.name || Ascii("xmlns") <= a.name
  }

  /** The pair an attribute becomes, if its name and an action's value are known. */
  function Renamed(a: Attribute): Option<Pair> {
    if KeyOf(a.name).None? then None
    else if Ascii("action") <= a.name then
      if ActionOf(a.value).None? then None else Some((KeyOf(a.name).value, ActionOf(a.value).value))
    else Some((KeyOf(a.name).value, a.value))
  }

  predicate AllKnown(attrs: seq<Attribute>) {
    forall i :: 0 <= i < |attrs| && !Skipped(attrs[i]) ==> Renamed(attrs[i]).Some?
  }

  function Pairs(attrs: seq<Attribute>): seq<Pair>
    requires AllKnown(attrs)
  {
    if attrs == [] then []
    else if Skipped(attrs[0]) then Pairs(attrs[1..])
    else [Renamed(attrs[0]).value] + Pairs(attrs[1..])
  }

  function SkippedCount(attrs: seq<Attribute>): nat {
    if attrs == [] then 0 else (if Skipped(attrs[0]) then 1 else 0) + SkippedCount(attrs[1..])
  }

  // ----- the bytes of a message -----

  predicate Sendable(s: Chars) {
    |s| < TWO32 && NulFree(s)
  }

  function StrBytes(s: Chars): (b: seq<byte>)
    requires |s| < TWO32
  {
    ItemFits(Text(s));
    Encode(Text(s))
  }

  predicate AllSendable(ps: seq<Pair>) {
    forall i :: 0 <= i < |ps| ==> Sendable(ps[i].0) && Sendable(ps[i].1)
  }

  function TwoStrings(p: Pair): seq<byte>
    requires |p.0| < TWO32 && |p.1| < TWO32
  {
    StrBytes(p.0) + StrBytes(p.1)
  }

  function PairBytes(ps: seq<Pair>): seq<byte>
    requires AllSendable(ps)
  {
    if ps == [] then [] else TwoStrings(ps[0]) + PairBytes(ps[1..])
  }

  /** The header count `2 + 2 * num_attrs - 4`, an unsigned 32-bit number. */
  function HeaderCount(attrs: seq<Attribute>): (n: nat)
    ensures n < TWO32
  {
    (2 * |attrs| - 2) % TWO32
  }

  function AllPairs(attrs: seq<Attribute>, text: Chars): seq<Pair>
    requires AllKnown(attrs)
  {
    [(Letter('t'), text)] + Pairs(attrs)
  }

  function Message(attrs: seq<Attribute>, text: Chars): seq<byte>
    requires AllKnown(attrs) && AllSendable(AllPairs(attrs, text))
  {
    SizesFit(HeaderCount(attrs));
    Header(MapObject(HeaderCount(attrs))) + PairBytes(AllPairs(attrs, text))
  }

  // ----- receiving -----

  /** A byte string as C sees it: up to the first NUL. */
  function CString(b: seq<byte>): (s: Chars)
    ensures NulFree(s) && s <= b && (|s| < |b| ==> b[|s|] == 0)
  {
    if b == [] || b[0] == 0 then [] else [b[0]] + CString(b[1..])
  }

  lemma {:induction false} CStringOfNulFree(s: Chars)
    requires NulFree(s)
    ensures CString(s) == s
  {
    if s != [] {
      CStringOfNulFree(s[1..]);
    }
  }

  /** `cmp_read_str`, its result taken as a C string. */
  function ReadString(b: seq<byte>): (r: Option<(Chars, nat)>)
    ensures r.Some? ==> 0 < r.value.1 <= |b|
  {
    match Decode(AnyText, b)
    case None => None
    case Some((i, n)) => Some((CString(ItemData(i)), n))
  }

  function ReadPair(b: seq<byte>): (r: Option<(Pair, nat)>)
    ensures r.Some? ==> 0 < r.value.1 <= |b|
  {
    match ReadString(b)
    case None => None
    case Some((key, k)) =>
      match ReadString(b[k..])
      case None => None
      case Some((value, v)) => Some(((key, value), k + v))
  }

  function Cons(p: Pair, ps: seq<Pair>): (all: seq<Pair>)
    ensures |all| == |ps| + 1
  {
    [p] + ps
  }

  /** Reading `n` pairs: the pairs and the number of bytes they take. */
  function ReadPairs(n: nat, b: seq<byte>): (r: Option<(seq<Pair>, nat)>)
    ensures r.Some? ==> |r.value.0| == n && r.value.1 <= |b|
    decreases n
  {
    if n == 0 then Some(([], 0))
    else
      match ReadPair(b)
      case None => None
      case Some((p, k)) =>
        match ReadPairs(n - 1, b[k..])
        case None => None
        case Some((ps, m)) => Some((Cons(p, ps), k + m))
  }

  /** The map after putting the pairs one after the other. */
  function PutAll(hm: map<Chars, Chars>, ps: seq<Pair>): map<Chars, Chars>
    decreases |ps|
  {
    if ps == [] then hm else PutAll(hm[ps[0].0 := ps[0].1], ps[1..])
  }

  /** A whole message: the header's count is halved; the result also says how many bytes were read. */
  function ReadMessage(b: seq<byte>): (r: Option<(seq<Pair>, nat)>)
    ensures r.Some? ==> r.value.1 <= |b|
  {
    match Decode(AnyMap, b)
    case None => None
    case Some((i, used)) =>
      var n := if i.MapOf? then i.n / 2 else 0;
      match ReadPairs(n, b[used..])
      case None => None
      case Some((ps, m)) => Some((ps, used + m))
  }

  datatype Reaction =
    | Pong                          // answer to the control word
    | Deliver(hm: map<Chars, Chars>) // hand the map to the shells module
    | Drop                          // not a message: nothing happens

  /** `onMessage` on the payload of a redis message. */
  function React(b: seq<byte>): Reaction {
    if b == Ascii("ping") then Pong
    else if ReadMessage(b).None? then Drop
    else Deliver(PutAll(map[], ReadMessage(b).value.0))
  }

  /** The control word, and nothing else, is answered with "pong". */
  lemma {:induction false} OnlyPingGetsPong(b: seq<byte>)
    ensures React(b) == Pong <==> b == ['p' as int, 'i' as int, 'n' as int, 'g' as int]
  {
    hide ReadMessage, PutAll;
    assert Ascii("ping") == ['p' as int, 'i' as int, 'n' as int, 'g' as int];
  }

  // ----- reading what was written -----

  lemma {:induction false} ReadStringBytes(s: Chars, rest: seq<byte>)
    requires Sendable(s)
    ensures ReadString(StrBytes(s) + rest) == Some((s, |StrBytes(s)|))
  {
    hide Decode, Encode;
    DecodeEncode(Text(s), rest);
    CStringOfNulFree(s);
  }

  lemma ReadPairBytes(p: Pair, rest: seq<byte>)
    requires Sendable(p.0) && Sendable(p.1)
    ensures ReadPair(TwoStrings(p) + rest) == Some((p, |TwoStrings(p)|))
  {
    hide ReadString, StrBytes;
    var key, value := StrBytes(p.0), StrBytes(p.1);
    ReadStringBytes(p.0, value + rest);
    ReadStringBytes(p.1, rest);
    assert key + value + rest == key + (value + rest);
    assert (key + (value + rest))[|key|..] == value + rest;
  }

  lemma {:induction false} ReadPairsCons(n: nat, first: seq<byte>, rest: seq<byte>, p: Pair)
    requires n > 0 && ReadPair(first + rest) == Some((p, |first|))
    ensures ReadPairs(n, first + rest) ==
      if ReadPairs(n - 1, rest).None? then None
      else Some(([p] + ReadPairs(n - 1, rest).value.0, |first| + ReadPairs(n - 1, rest).value.1))
  {
    hide ReadPair;
    assert (first + rest)[|first|..] == rest;
  }

  /** As many pairs as were written, or fewer, are read back as they are. */
  lemma {:induction false} ReadPairsBytes(n: nat, ps: seq<Pair>, rest: seq<byte>)
    requires AllSendable(ps) && n <= |ps|
    ensures AllSendable(ps[..n])
    ensures ReadPairs(n, PairBytes(ps) + rest) == Some((ps[..n], |PairBytes(ps[..n])|))
    decreases n
  {
    hide ReadPair, TwoStrings;
    if n > 0 {
      var first, others := TwoStrings(ps[0]), PairBytes(ps[1..]);
      ReadPairBytes(ps[0], others + rest);
      assert PairBytes(ps) + rest == first + (others + rest);
      ReadPairsCons(n, first, others + rest, ps[0]);
      ReadPairsBytes(n - 1, ps[1..], rest);
      assert ps[..n][1..] == ps[1..][..n - 1];
      assert [ps[0]] + ps[1..][..n - 1] == ps[..n];
    }
  }

  /** More pairs than were written are not there to be read. */
  lemma {:induction false} ReadTooManyPairs(n: nat, ps: seq<Pair>)
    requires AllSendable(ps) && n > |ps|
    ensures ReadPairs(n, PairBytes(ps)) == None
    decreases n
  {
    hide ReadPair, TwoStrings;
    if ps != [] {
      var first, others := TwoStrings(ps[0]), PairBytes(ps[1..]);
      ReadPairBytes(ps[0], others);
      ReadPairsCons(n, first, others, ps[0]);
      ReadTooManyPairs(n - 1, ps[1..]);
    }
  }

  lemma {:induction false} PairsCount(attrs: seq<Attribute>)
    requires AllKnown(attrs)
    ensures |Pairs(attrs)| + SkippedCount(attrs) == |attrs|
  {
    if attrs != [] {
      PairsCount(attrs[1..]);
    }
  }

  lemma {:induction false} ReadMessageHeader(n: nat, rest: seq<byte>)
    requires n < TWO32
    ensures Fits(MapObject(n))
    ensures ReadMessage(Header(MapObject(n)) + rest) ==
      if ReadPairs(n / 2, rest).None? then None
      else Some((ReadPairs(n / 2, rest).value.0, |Header(MapObject(n))| + ReadPairs(n / 2, rest).value.1))
  {
    hide Decode, Header, MapObject, Fits, ReadPairs;
    SizesFit(n);
    DecodeEncode(MapOf(n), rest);
    var h := Header(MapObject(n));
    assert Encode(MapOf(n)) == h;
    assert (h + rest)[|h|..] == rest;
  }

  lemma {:induction false} StringTakesBytes(s: Chars)
    requires |s| < TWO32
    ensures |StrBytes(s)| > 0
  {
  }

  lemma {:induction false} PairBytesPrefix(ps: seq<Pair>, n: nat)
    requires AllSendable(ps) && n < |ps|
    ensures AllSendable(ps[..n]) && |PairBytes(ps[..n])| < |PairBytes(ps)|
    decreases n
  {
    hide StrBytes;
    StringTakesBytes(ps[0].0);
    if n > 0 {
      PairBytesPrefix(ps[1..], n - 1);
      assert ps[..n][1..] == ps[1..][..n - 1];
    }
  }

  /** What the reader makes of a message depends only on how many attributes the writer passed
      over: with two, it reads every pair and every byte; with fewer it leaves the last pair or the last
      two; with more, or with no attribute at all, it runs out of bytes. */
  lemma {:induction false} ReadWrittenMessage(attrs: seq<Attribute>, text: Chars)
    requires AllKnown(attrs) && AllSendable(AllPairs(attrs, text)) && |attrs| < TWO31
    ensures var r, msg := ReadMessage(Message(attrs, text)), Message(attrs, text);
      && (SkippedCount(attrs) == 2 ==> r == Some((AllPairs(attrs, text), |msg|)))
      && (SkippedCount(attrs) < 2 && attrs != [] ==>
            r.Some? && |r.value.0| == |attrs| - 1 && r.value.0 < AllPairs(attrs, text) && r.value.1 < |msg|)
      && (SkippedCount(attrs) > 2 || attrs == [] ==> r == None)
  {
    hide ReadPairs, Decode, PairBytes, AllKnown, AllSendable, Renamed, Pairs, StrBytes;
    var ps, n := AllPairs(attrs, text), HeaderCount(attrs);
    PairsCount(attrs);
    assert |ps| == |attrs| + 1 - SkippedCount(attrs);
    assert n / 2 == if attrs == [] then TWO31 - 1 else |attrs| - 1;
    ReadMessageHeader(n, PairBytes(ps));
    if n / 2 > |ps| {
      ReadTooManyPairs(n / 2, ps);
    } else {
      ReadPairsBytes(n / 2, ps, []);
      assert PairBytes(ps) + [] == PairBytes(ps);
      if n / 2 < |ps| {
        PairBytesPrefix(ps, n / 2);
      } else {
        assert ps[..n / 2] == ps;
      }
    }
  }

  /** A stanza without a gadgetid, as only one attribute is passed over. */
  function StatusStanza(namespace: Chars, id: Chars): seq<Attribute> {
    [Attribute(Ascii("xmlns"), namespace), Attribute(Ascii("action"), Ascii("status")),
      Attribute(Ascii("projectid"), id)]
  }

  lemma ActionStatus()
    ensures var a := Attribute(Ascii("action"), Ascii("status"));
      && !Skipped(a) && Renamed(a) == Some((Letter('a'), Letter('s')))
  {
    assert Ascii("action")[0] == 'a' as int && Ascii("status")[0] == 's' as int;
    assert Ascii("gadgetid")[0] == 'g' as int && Ascii("xmlns")[0] == 'x' as int;
    assert Ascii("width")[0] == 'w' as int && Ascii("height")[0] == 'h' as int && Ascii("request")[0] == 'r' as int;
    assert Ascii("open")[0] == 'o' as int && Ascii("close")[0] == 'c' as int && Ascii("keys")[0] == 'k' as int;
    hide Ascii, Letter;
  }

  lemma ProjectName(id: Chars)
    ensures var a := Attribute(Ascii("projectid"), id);
      && !Skipped(a) && Renamed(a) == Some((Letter('p'), id))
  {
    assert Ascii("projectid")[0] == 'p' as int && Ascii("action")[0] == 'a' as int;
    assert Ascii("gadgetid")[0] == 'g' as int && Ascii("xmlns")[0] == 'x' as int;
    assert Ascii("width")[0] == 'w' as int && Ascii("height")[0] == 'h' as int && Ascii("request")[0] == 'r' as int;
    hide Ascii, Letter;
  }

  lemma {:induction false} StatusStanzaPairs(namespace: Chars, id: Chars)
    ensures var attrs := StatusStanza(namespace, id);
      && SkippedCount(attrs) == 1 && AllKnown(attrs)
      && Pairs(attrs) == [(Letter('a'), Letter('s')), (Letter('p'), id)]
  {
    hide Renamed, Letter, Ascii, KeyOf, ActionOf;
    var attrs := StatusStanza(namespace, id);
    ActionStatus();
    ProjectName(id);
    assert Skipped(attrs[0]);
    assert attrs[1..] == [attrs[1], attrs[2]] && attrs[1..][1..] == [attrs[2]] && attrs[1..][1..][1..] == [];
    assert Pairs(attrs[1..][1..]) == [(Letter('p'), id)];
    assert SkippedCount(attrs[1..][1..]) == 0;
  }

  /** A message can never be taken for the control word. */
  lemma {:induction false} MessageIsNotPing(attrs: seq<Attribute>, text: Chars)
    requires AllKnown(attrs) && AllSendable(AllPairs(attrs, text))
    ensures Message(attrs, text) != Ascii("ping")
  {
    SizesFit(HeaderCount(attrs));
    assert Message(attrs, text)[0] == Marker(MapObject(HeaderCount(attrs))) >= 0x80;
    assert Ascii("ping")[0] == 0x70;
  }

  // ----- the map that is delivered -----

  predicate DistinctKeys(ps: seq<Pair>) {
    forall i, j :: 0 <= i < j < |ps| ==> ps[i].0 != ps[j].0
  }

  lemma {:induction false} PutAllDistinct(hm: map<Chars, Chars>, ps: seq<Pair>)
    requires DistinctKeys(ps)
    ensures forall i :: 0 <= i < |ps| ==> ps[i].0 in PutAll(hm, ps) && PutAll(hm, ps)[ps[i].0] == ps[i].1
    ensures forall k :: (forall i :: 0 <= i < |ps| ==> ps[i].0 != k) ==>
      (k in PutAll(hm, ps) <==> k in hm) && (k in hm ==> PutAll(hm, ps)[k] == hm[k])
    decreases |ps|
  {
    if ps != [] {
      PutAllDistinct(hm[ps[0].0 := ps[0].1], ps[1..]);
      assert forall i :: 1 <= i < |ps| ==> ps[i] == ps[1..][i - 1];
    }
  }

  lemma {:induction false} PutAllOthers(hm: map<Chars, Chars>, ps: seq<Pair>, key: Chars)
    requires forall p :: p in ps ==> p.0 != key
    ensures key in PutAll(hm, ps) <==> key in hm
    ensures key in hm ==> PutAll(hm, ps)[key] == hm[key]
    decreases |ps|
  {
    if ps != [] {
      PutAllOthers(hm[ps[0].0 := ps[0].1], ps[1..], key);
    }
  }

  /** Of several pairs with the same key the last one counts. */
  lemma {:induction false} PutAllLast(hm: map<Chars, Chars>, ps: seq<Pair>, i: nat)
    requires i < |ps| && forall j :: i < j < |ps| ==> ps[j].0 != ps[i].0
    ensures ps[i].0 in PutAll(hm, ps) && PutAll(hm, ps)[ps[i].0] == ps[i].1
    decreases |ps|
  {
    var more := hm[ps[0].0 := ps[0].1];
    if i == 0 {
      PutAllOthers(more, ps[1..], ps[0].0);
    } else {
      PutAllLast(more, ps[1..], i - 1);
    }
  }

  /** Distinct attribute names that are not passed over. */
  predicate DistinctNames(attrs: seq<Attribute>) {
    forall i, j :: 0 <= i < j < |attrs| && !Skipped(attrs[i]) && !Skipped(attrs[j]) ==>
      attrs[i].name != attrs[j].name
  }

  /** Every key and every action code is the first letter of the name it stands for. These letters and
      "t" are what the hypervisor looks up and dispatches on; for its one other key see
      `NeverInBackground`. */
  lemma FirstLetters(name: Chars)
    ensures KeyOf(name).Some? ==> name != [] && KeyOf(name).value == [name[0]]
    ensures ActionOf(name).Some? ==> name != [] && ActionOf(name).value == [name[0]]
  {
    assert Ascii("width")[0] == 'w' as int && Ascii("height")[0] == 'h' as int && Ascii("request")[0] == 'r' as int;
    assert Ascii("action")[0] == 'a' as int && Ascii("projectid")[0] == 'p' as int;
    assert Ascii("shellid")[0] == 's' as int && Ascii("userid")[0] == 'u' as int;
    assert Ascii("open")[0] == 'o' as int && Ascii("close")[0] == 'c' as int && Ascii("keys")[0] == 'k' as int;
    assert Ascii("status")[0] == 's' as int && Ascii("poweroff")[0] == 'p' as int;
    assert Ascii("disconnect")[0] == 'd' as int && Ascii("resize")[0] == 'r' as int;
    hide Ascii;
  }

  lemma KeysAreInjective(a: Chars, b: Chars)
    requires KeyOf(a).Some?
    ensures KeyOf(a) == KeyOf(b) ==> a == b
    ensures KeyOf(a) != Some(Letter('t'))
  {
    hide Ascii;
  }

  /** Every pair comes from an attribute ... */
  lemma {:induction false} PairFrom(attrs: seq<Attribute>, i: nat) returns (j: nat)
    requires AllKnown(attrs) && i < |Pairs(attrs)|
    ensures j < |attrs| && !Skipped(attrs[j]) && Renamed(attrs[j]) == Some(Pairs(attrs)[i])
  {
    hide Skipped, Renamed;
    if Skipped(attrs[0]) {
      j := PairFrom(attrs[1..], i);
      j := j + 1;
    } else if i == 0 {
      j := 0;
    } else {
      j := PairFrom(attrs[1..], i - 1);
      j := j + 1;
    }
  }

  /** ... and every attribute that is not passed over gives one. */
  lemma {:induction false} PairFor(attrs: seq<Attribute>, j: nat) returns (i: nat)
    requires AllKnown(attrs) && j < |attrs| && !Skipped(attrs[j])
    ensures i < |Pairs(attrs)| && Renamed(attrs[j]) == Some(Pairs(attrs)[i])
  {
    hide Skipped, Renamed;
    if j == 0 {
      i := 0;
    } else {
      i := PairFor(attrs[1..], j - 1);
      if !Skipped(attrs[0]) { i := i + 1; }
    }
  }

  lemma {:induction false} RenamedSendable(a: Attribute)
    requires Sendable(a.value) && Renamed(a).Some?
    ensures Sendable(Renamed(a).value.0) && Sendable(Renamed(a).value.1)
  {
  }

  lemma OneMoreSendable(p: Pair, ps: seq<Pair>)
    requires Sendable(p.0) && Sendable(p.1) && AllSendable(ps)
    ensures AllSendable([p] + ps)
  {
    hide Sendable;
  }

  lemma {:induction false} PairsSendable(attrs: seq<Attribute>, text: Chars)
    requires AllKnown(attrs) && Sendable(text)
    requires forall i :: 0 <= i < |attrs| ==> Sendable(attrs[i].value)
    ensures AllSendable(Pairs(attrs)) && AllSendable(AllPairs(attrs, text))
  {
    assert Sendable(Letter('t'));
    hide Renamed, Skipped, Pairs, Sendable, AllKnown;
    var ps := Pairs(attrs);
    forall i | 0 <= i < |ps|
      ensures Sendable(ps[i].0) && Sendable(ps[i].1)
    {
      var j := PairFrom(attrs, i);
      RenamedSendable(attrs[j]);
    }
    OneMoreSendable((Letter('t'), text), ps);
  }

  lemma {:induction false} PairsDistinct(attrs: seq<Attribute>)
    requires AllKnown(attrs) && DistinctNames(attrs)
    ensures DistinctKeys(Pairs(attrs))
    ensures forall i :: 0 <= i < |Pairs(attrs)| ==> Pairs(attrs)[i].0 != Letter('t')
  {
    hide Skipped, KeyOf, ActionOf, Letter;
    if attrs != [] {
      PairsDistinct(attrs[1..]);
      if !Skipped(attrs[0]) {
        KeysAreInjective(attrs[0].name, attrs[0].name);
        forall i | 0 <= i < |Pairs(attrs[1..])|
          ensures Pairs(attrs[1..])[i].0 != Renamed(attrs[0]).value.0
        {
          var j := PairFrom(attrs[1..], i);
          KeysAreInjective(attrs[0].name, attrs[1..][j].name);
        }
      }
    }
  }

  /** The round trip: with one gadgetid, one xmlns and otherwise distinct known names, the
      hypervisor gets exactly the renamed attributes and the text under "t". */
  lemma {:induction false} RoundTrip(attrs: seq<Attribute>, text: Chars)
    requires AllKnown(attrs) && AllSendable(AllPairs(attrs, text)) && |attrs| < TWO31
    requires SkippedCount(attrs) == 2 && DistinctNames(attrs)
    ensures var hm := PutAll(map[], AllPairs(attrs, text));
      && React(Message(attrs, text)) == Deliver(hm)
      && ReadMessage(Message(attrs, text)).value.1 == |Message(attrs, text)|
      && Letter('t') in hm && hm[Letter('t')] == text
      && (forall j :: 0 <= j < |attrs| && !Skipped(attrs[j]) ==>
            Renamed(attrs[j]).value.0 in hm && hm[Renamed(attrs[j]).value.0] == Renamed(attrs[j]).value.1)
      && (forall k :: k in hm && k != Letter('t') ==>
            exists j :: 0 <= j < |attrs| && !Skipped(attrs[j]) && Renamed(attrs[j]).value.0 == k)
  {
    hide ReadMessage, Message, Skipped, Renamed, AllSendable, PutAll, Ascii, Letter;
    var ps, hm := AllPairs(attrs, text), PutAll(map[], AllPairs(attrs, text));
    assert attrs != [];
    ReadWrittenMessage(attrs, text);
    MessageIsNotPing(attrs, text);
    PairsDistinct(attrs);
    PutAllDistinct(map[], ps);
    assert ps[0] == (Letter('t'), text);
    forall j | 0 <= j < |attrs| && !Skipped(attrs[j])
      ensures Renamed(attrs[j]).value.0 in hm && hm[Renamed(attrs[j]).value.0] == Renamed(attrs[j]).value.1
    {
      var i := PairFor(attrs, j);
      assert ps[i + 1] == Pairs(attrs)[i];
    }
    forall k | k in hm && k != Letter('t')
      ensures exists j :: 0 <= j < |attrs| && !Skipped(attrs[j]) && Renamed(attrs[j]).value.0 == k
    {
      var i :| 0 <= i < |ps| && ps[i].0 == k;
      var j := PairFrom(attrs, i - 1);
    }
  }

  /** The witness that a stanza without gadgetid loses its last pair: the hypervisor gets a status
      request that names no project. */
  lemma {:induction false} ProjectIsLost(namespace: Chars, id: Chars, text: Chars)
    requires Sendable(id) && Sendable(text)
    ensures var attrs := StatusStanza(namespace, id);
      && AllKnown(attrs) && AllSendable(AllPairs(attrs, text))
      && React(Message(attrs, text)) == Deliver(map[Letter('t') := text, Letter('a') := Letter('s')])
  {
    hide ReadMessage, Message, AllKnown, Renamed, Ascii;
    var attrs := StatusStanza(namespace, id);
    StatusStanzaPairs(namespace, id);
    OneMoreSendable((Letter('p'), id), []);
    OneMoreSendable((Letter('a'), Letter('s')), [(Letter('p'), id)]);
    OneMoreSendable((Letter('t'), text), Pairs(attrs));
    var ps := AllPairs(attrs, text);
    ReadWrittenMessage(attrs, text);
    MessageIsNotPing(attrs, text);
    var first: Pair, second: Pair := (Letter('t'), text), (Letter('a'), Letter('s'));
    assert ReadMessage(Message(attrs, text)).value.0 == [first, second];
    assert [first, second][1..] == [second];
    assert PutAll(map[first.0 := first.1], [second]) == map[first.0 := first.1, second.0 := second.1];
    assert PutAll(map[], [first, second]) == map[first.0 := first.1, second.0 := second.1];
  }

  lemma RenamedKey(a: Attribute)
    ensures Renamed(a).Some? ==> |Renamed(a).value.0| == 1
  {
    hide Ascii;
  }

  lemma {:induction false} KeysHaveOneLetter(attrs: seq<Attribute>, text: Chars)
    requires AllKnown(attrs)
    ensures forall p :: p in AllPairs(attrs, text) ==> |p.0| == 1
  {
    hide Skipped, Renamed, Ascii;
    forall i | 0 <= i < |Pairs(attrs)|
      ensures |Pairs(attrs)[i].0| == 1
    {
      var j := PairFrom(attrs, i);
      RenamedKey(attrs[j]);
    }
  }

  /** The hypervisor keeps a project from being stopped when a close request has an entry under
      "background". No message the server writes ever gives it one. */
  lemma {:induction false} NeverInBackground(attrs: seq<Attribute>, text: Chars)
    requires AllKnown(attrs) && AllSendable(AllPairs(attrs, text)) && |attrs| < TWO31
    ensures var r := React(Message(attrs, text));
      r.Deliver? ==> Ascii("background") !in r.hm
  {
    hide ReadMessage, Message, AllKnown, PutAll, Ascii;
    MessageIsNotPing(attrs, text);
    ReadWrittenMessage(attrs, text);
    KeysHaveOneLetter(attrs, text);
    if ReadMessage(Message(attrs, text)).Some? {
      PutAllOthers(map[], ReadMessage(Message(attrs, text)).value.0, Ascii("background"));
    }
  }

  // ----- the two programs -----

  /** `cmp_write_str` at the end of the message. */
  method Put(ctx: Context, s: Chars) returns (ok: bool)
    requires ctx.Valid() && |s| < TWO32
    modifies ctx`writerOffset, ctx.buf
    ensures ctx.Valid()
    ensures ok <==> old(ctx.writerOffset) + |StrBytes(s)| <= ctx.size
    ensures ok ==> ctx.buf[..ctx.writerOffset] == old(ctx.buf[..ctx.writerOffset]) + StrBytes(s)
  {
    ok := ctx.WriteStr(s);
  }

  lemma KeySendable(name: Chars)
    ensures KeyOf(name).Some? ==> Sendable(KeyOf(name).value)
  {
  }

  /** One round of the loop of `shells` for an attribute that is not passed over. */
  method PutAttribute(ctx: Context, a: Attribute) returns (ok: bool)
    requires ctx.Valid() && Sendable(a.value) && !Skipped(a)
    modifies ctx`writerOffset, ctx.buf
    ensures ctx.Valid()
    ensures Renamed(a).Some? ==> Sendable(Renamed(a).value.0) && Sendable(Renamed(a).value.1)
    ensures ok <==> Renamed(a).Some? && old(ctx.writerOffset) + |TwoStrings(Renamed(a).value)| <= ctx.size
    ensures ok ==> ctx.buf[..ctx.writerOffset] == old(ctx.buf[..ctx.writerOffset]) + TwoStrings(Renamed(a).value)
  {
    hide StrBytes, ActionOf, KeyOf;
    if Renamed(a).Some? {
      RenamedSendable(a);
    }
    var key := KeyOf(a.name);
    if key.None? {
      return false;
    }
    KeySendable(a.name);
    ok := Put(ctx, key.value);
    if !ok {
      return false;
    }
    if Ascii("action") <= a.name {
      var action := ActionOf(a.value);
      if action.None? {
        return false;
      }
      ok := Put(ctx, action.value);
    } else {
      ok := Put(ctx, a.value);
    }
  }

  /** The map header and the text, under the key "t". */
  method PutStart(ctx: Context, count: nat, text: Chars) returns (ok: bool)
    requires ctx.Valid() && ctx.writerOffset == 0 && count < TWO32 && |text| < TWO32
    modifies ctx`writerOffset, ctx.buf
    ensures ctx.Valid() && Fits(MapObject(count))
    ensures var start := Header(MapObject(count)) + TwoStrings((Letter('t'), text));
      && (ok <==> |start| <= ctx.size)
      && (ok ==> ctx.buf[..ctx.writerOffset] == start)
  {
    hide StrBytes, Header, MapObject, Fits;
    ok := ctx.WriteMap(count);
    if !ok {
      return false;
    }
    assert ctx.buf[..ctx.writerOffset] == Header(MapObject(count));
    ok := Put(ctx, Letter('t'));
    if !ok {
      return false;
    }
    ok := Put(ctx, text);
  }

  /** `shells` of shells/shells.c from the decoded text on, with a buffer of `size` bytes; the
      result is what it publishes. */
  method SendShells(attrs: seq<Attribute>, text: Chars, size: nat) returns (sent: Option<seq<byte>>)
    requires |attrs| < TWO31 && Sendable(text)
    requires forall i :: 0 <= i < |attrs| ==> Sendable(attrs[i].value)
    ensures AllKnown(attrs) ==> AllSendable(AllPairs(attrs, text))
    ensures sent == if AllKnown(attrs) && |Message(attrs, text)| <= size then Some(Message(attrs, text)) else None
  {
    hide TwoStrings, Renamed, Skipped, Header;
    if AllKnown(attrs) {
      PairsSendable(attrs, text);
      assert AllPairs(attrs, text)[1..] == Pairs(attrs);
    }
    var buffer := new byte[size](_ => 0);
    var ctx := new Context(buffer, size);
    var ok := PutStart(ctx, HeaderCount(attrs), text);
    if !ok {
      return None;
    }
    var i := 0;
    while i < |attrs|
      invariant 0 <= i <= |attrs| && ctx.Valid() && ctx.buf == buffer && ctx.size == size && fresh(ctx) && fresh(buffer)
      invariant AllKnown(attrs) <==> AllKnown(attrs[i..])
      invariant AllKnown(attrs) ==> AllSendable(Pairs(attrs[i..]))
      invariant AllKnown(attrs) ==>
        Message(attrs, text) == buffer[..ctx.writerOffset] + PairBytes(Pairs(attrs[i..]))
    {
      ghost var rest := attrs[i..];
      assert rest[0] == attrs[i] && rest[1..] == attrs[i + 1..];
      if !Skipped(attrs[i]) {
        ok := PutAttribute(ctx, attrs[i]);
        if !ok {
          return None;
        }
      }
      i := i + 1;
    }
    assert attrs[i..] == [];
    sent := Some(buffer[..ctx.writerOffset]);
    assert sent.value + [] == sent.value == Message(attrs, text);
  }

  /** `cmp_read_str` */
  method TakeString(ctx: Context) returns (r: Option<Chars>)
    requires ctx.Valid()
    modifies ctx`readerOffset
    ensures ctx.Valid()
    ensures r.Some? <==> ReadString(old(ctx.Rest())).Some?
    ensures r.Some? ==>
      && r.value == ReadString(old(ctx.Rest())).value.0
      && ctx.Rest() == old(ctx.Rest())[ReadString(old(ctx.Rest())).value.1..]
  {
    hide Decode;
    ghost var b := ctx.Rest();
    var i := ctx.ReadItem(AnyText);
    if i.None? {
      return None;
    }
    assert ctx.Rest() == b[Decode(AnyText, b).value.1..];
    r := Some(CString(ItemData(i.value)));
  }

  /** One round of the loop of `onMessage`, up to `hashmap_put`. */
  method TakePair(ctx: Context) returns (r: Option<Pair>)
    requires ctx.Valid()
    modifies ctx`readerOffset
    ensures ctx.Valid()
    ensures r.Some? <==> ReadPair(old(ctx.Rest())).Some?
    ensures r.Some? ==>
      && r.value == ReadPair(old(ctx.Rest())).value.0
      && ctx.Rest() == old(ctx.Rest())[ReadPair(old(ctx.Rest())).value.1..]
  {
    hide ReadString;
    ghost var b := ctx.Rest();
    var key := TakeString(ctx);
    if key.None? {
      return None;
    }
    ghost var k := ReadString(b).value.1;
    var value := TakeString(ctx);
    if value.None? {
      return None;
    }
    ghost var v := ReadString(b[k..]).value.1;
    assert b[k..][v..] == b[k + v..];
    r := Some((key.value, value.value));
  }

  /** The number of map entries the header announces. */
  method TakeHeader(ctx: Context) returns (n: Option<nat>)
    requires ctx.Valid()
    modifies ctx`readerOffset
    ensures ctx.Valid()
    ensures n.None? ==> ReadMessage(old(ctx.Rest())) == None
    ensures n.Some? ==>
      (ReadMessage(old(ctx.Rest())).Some? <==> ReadPairs(n.value / 2, ctx.Rest()).Some?)
    ensures n.Some? && ReadMessage(old(ctx.Rest())).Some? ==>
      ReadMessage(old(ctx.Rest())).value.0 == ReadPairs(n.value / 2, ctx.Rest()).value.0
  {
    hide Parse, ReadPairs;
    ghost var b := ctx.Rest();
    var i := ctx.ReadItem(AnyMap);
    if i.None? {
      return None;
    }
    assert ctx.Rest() == b[Decode(AnyMap, b).value.1..];
    n := Some(i.value.n);
  }

  lemma {:induction false} ReadNoPair()
    ensures forall b :: ReadPairs(0, b) == Some(([], 0))
    ensures forall hm :: PutAll(hm, []) == hm
  {
  }

  lemma ReadOnePair(hm: map<Chars, Chars>, n: nat, b: seq<byte>)
    requires n > 0
    ensures ReadPairs(n, b).Some? <==>
      ReadPair(b).Some? && ReadPairs(n - 1, b[ReadPair(b).value.1..]).Some?
    ensures ReadPairs(n, b).Some? ==>
      var p := ReadPair(b).value.0;
      PutAll(hm, ReadPairs(n, b).value.0) ==
      PutAll(hm[p.0 := p.1], ReadPairs(n - 1, b[ReadPair(b).value.1..]).value.0)
  {
    hide ReadPair;
  }

  /** `onMessage` of hypervisor/wredis/wredis.c on the payload of a message. */
  method OnMessage(message: array<byte>) returns (r: Reaction)
    ensures r == React(message[..])
  {
    hide ReadMessage, ReadPair, Ascii;
    ReadNoPair();
    hide ReadPairs, PutAll;
    if message[..] == Ascii("ping") {
      return Pong;
    }
    ghost var all := message[..];
    var ctx := new Context(message, message.Length);
    assert ctx.Rest() == all;
    var size := TakeHeader(ctx);
    if size.None? {
      return Drop;
    }
    var hm: map<Chars, Chars>, i, n := map[], 0, size.value / 2;
    while i < n
      invariant 0 <= i <= n && ctx.Valid()
      invariant ReadMessage(all).Some? <==> ReadPairs(n - i, ctx.Rest()).Some?
      invariant ReadMessage(all).Some? ==>
        PutAll(map[], ReadMessage(all).value.0) == PutAll(hm, ReadPairs(n - i, ctx.Rest()).value.0)
    {
      ReadOnePair(hm, n - i, ctx.Rest());
      var pair := TakePair(ctx);
      if pair.None? {
        return Drop;
      }
      hm := hm[pair.value.0 := pair.value.1];
      i := i + 1;
    }
    r := Deliver(hm);
  }
}
