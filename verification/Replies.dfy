/** What the server makes of the hypervisor's messages (communication/communication.c): a stanza for the
    owner with the attributes spelt out. */
module Replies {
  import opened Basics
  import opened Bytes
  import opened Base64
  import opened MessagePack
  import opened MessagePackItems
  import opened MessagePackBuffer
  import opened Framing
  import opened Stanzas
  import opened ShellTable
  import opened ShellResponses

  /** What is sent to the owner; `attributes` without the namespace. */
  datatype Stanza =
    | Nothing
    | Keepalive
    | Shells(attributes: map<Chars, Chars>, texts: seq<string>)

  // ----- spelling out -----

  /** The table `hm`. */
  function NameOf(key: Chars): Option<Chars> {
    if key == Ascii("w") then Some(Ascii("width"))
    else if key == Ascii("h") then Some(Ascii("height"))
    else if key == Ascii("r") then Some(Ascii("request"))
    else if key == Ascii("a") then Some(Ascii("action"))
    else if key == Ascii("p") then Some(Ascii("projectid"))
    else if key == Ascii("s") then Some(Ascii("shellid"))
    else if key == Ascii("u") then Some(Ascii("userid"))
    else if key == Ascii("c") then Some(Ascii("code"))
    else if key == Ascii("ru") then Some(Ascii("running"))
    else if key == Ascii("re") then Some(Ascii("response"))
    else None
  }

  /** The table `action_hm`. */
  function WordOf(code: Chars): Option<Chars> {
    if code == Ascii("o") then Some(Ascii("open"))
    else if code == Ascii("c") then Some(Ascii("close"))
    else if code == Ascii("k") then Some(Ascii("keys"))
    else if code == Ascii("s") then Some(Ascii("status"))
    else if code == Ascii("p") then Some(Ascii("poweroff"))
    else if code == Ascii("d") then Some(Ascii("disconnect"))
    else None
  }

  /** The attribute a pair becomes. */
  function SpeltOut(p: Pair): Option<Pair> {
    if NameOf(p.0).None? then None
    else if Ascii("a") <= p.0 then
      if WordOf(p.1).None? then None else Some((NameOf(p.0).value, WordOf(p.1).value))
    else Some((NameOf(p.0).value, p.1))
  }

  /** The sizes `base64_encode` takes. */
  const ENCODABLE := 0xffff_ffff / 4

  /** A stanza under construction. */
  datatype Draft = Draft(attributes: map<Chars, Chars>, texts: seq<string>)

  /** The stanza with one more pair: a text under "t" is encoded, everything else is an attribute. */
  function WithPair(d: Draft, p: Pair): Option<Draft> {
    if p.0 == Ascii("t") then
      if |p.1| >= ENCODABLE then None else Some(d.(texts := d.texts + [Rfc4648Text(p.1)]))
    else
      match SpeltOut(p)
      case None => None
      case Some((name, value)) => Some(d.(attributes := d.attributes[name := value]))
  }

  function WithPairs(d: Draft, ps: seq<Pair>): Stanza
    decreases |ps|
  {
    if ps == [] then Shells(d.attributes, d.texts)
    else if WithPair(d, ps[0]).None? then Nothing
    else WithPairs(WithPair(d, ps[0]).value, ps[1..])
  }

  /** The stanza with the next `n` pairs read from `b`. */
  function WithRead(d: Draft, n: nat, b: seq<byte>): Stanza {
    match ReadPairs(n, b)
    case None => Nothing
    case Some((ps, _)) => WithPairs(d, ps)
  }

  /** `onHypervisorMessage` on the payload of a redis message; `connected` tells whether there is an
      XMPP connection. */
  function ServerReact(b: seq<byte>, connected: bool): Stanza {
    if b == Ascii("pong") then if connected then Keepalive else Nothing
    else if !connected || ReadMessage(b).None? then Nothing
    else WithPairs(Draft(map[], []), ReadMessage(b).value.0)
  }

  // ----- the program -----

  lemma {:induction false} WithNone(d: Draft, b: seq<byte>)
    ensures WithRead(d, 0, b) == Shells(d.attributes, d.texts)
  {
  }

  lemma {:induction false} WithOne(d: Draft, n: nat, b: seq<byte>)
    requires n > 0
    ensures ReadPair(b).None? ==> WithRead(d, n, b) == Nothing
    ensures ReadPair(b).Some? ==>
      var (p, k) := ReadPair(b).value;
      WithRead(d, n, b) == if WithPair(d, p).None? then Nothing else WithRead(WithPair(d, p).value, n - 1, b[k..])
  {
    hide ReadPair, WithPair;
  }

  /** One round of the loop of `onHypervisorMessage`, after the key and the value have been read. */
  method AddPair(d: Draft, p: Pair) returns (r: Option<Draft>)
    ensures r == WithPair(d, p)
  {
    hide Rfc4648Text, Ascii, NameOf, WordOf;
    var (key, value) := p;
    if key == Ascii("t") {
      if |value| >= ENCODABLE {
        return None;
      }
      var out := new char[Size(|value|)](_ => '\0');
      var ok := Base64Encode(out, Size(|value|), value, |value|);
      assert value[..|value|] == value;
      var encoded := out[..out.Length - 1];
      assert encoded == out[..out.Length][..out.Length - 1] == Rfc4648Text(value);
      return Some(d.(texts := d.texts + [encoded]));
    }
    var name := NameOf(key);
    if name.None? {
      return None;
    }
    if Ascii("a") <= key {
      var word := WordOf(value);
      if word.None? {
        return None;
      }
      value := word.value;
    }
    return Some(d.(attributes := d.attributes[name.value := value]));
  }

  /** The loop of `onHypervisorMessage`. */
  method CollectPairs(ctx: Context, n: nat) returns (r: Stanza)
    requires ctx.Valid()
    modifies ctx`readerOffset
    ensures r == WithRead(Draft(map[], []), n, old(ctx.Rest()))
  {
    hide ReadPair, WithPair, WithRead;
    var d, i := Draft(map[], []), 0;
    while i < n
      invariant 0 <= i <= n && ctx.Valid()
      invariant WithRead(Draft(map[], []), n, old(ctx.Rest())) == WithRead(d, n - i, ctx.Rest())
    {
      WithOne(d, n - i, ctx.Rest());
      var pair := TakePair(ctx);
      if pair.None? {
        return Nothing;
      }
      var more := AddPair(d, pair.value);
      if more.None? {
        return Nothing;
      }
      d := more.value;
      i := i + 1;
    }
    WithNone(d, ctx.Rest());
    return Shells(d.attributes, d.texts);
  }

  /** `onHypervisorMessage` of communication/communication.c. */
  method OnHypervisorMessage(message: array<byte>, connected: bool) returns (r: Stanza)
    ensures r == ServerReact(message[..], connected)
  {
    hide ReadPair, ReadPairs, Ascii, WithPair, WithPairs, Decode;
    ghost var all := message[..];
    if message[..] == Ascii("pong") {
      return if connected then Keepalive else Nothing;
    }
    var ctx := new Context(message, message.Length);
    assert ctx.Rest() == all;
    var size := TakeHeader(ctx);
    if size.None? || !connected {
      return Nothing;
    }
    r := CollectPairs(ctx, size.value / 2);
  }

  // ----- responses -----

  /** The strings of a response, two by two. */
  function PairsOf(ss: seq<string>): (ps: seq<Pair>)
    requires |ss| % 2 == 0
    ensures 2 * |ps| == |ss|
  {
    if ss == [] then [] else [(Ascii(ss[0]), Ascii(ss[1]))] + PairsOf(ss[2..])
  }

  /** No NUL inside. */
  predicate Clean(ss: seq<string>) {
    forall i :: 0 <= i < |ss| ==> NulFree(Ascii(ss[i]))
  }

  lemma {:induction false} EncodeAllCons(i: Item, items: seq<Item>)
    requires Writable(i) && Fits(ItemObject(i)) && AllWritable(items)
    ensures AllWritable([i] + items) && EncodeAll([i] + items) == Encode(i) + EncodeAll(items)
  {
    hide Writable, Encode;
    assert ([i] + items)[1..] == items;
  }

  lemma {:induction false} TwoTexts(ss: seq<string>)
    requires |ss| >= 2 && Short(ss)
    ensures AllWritable(Texts(ss)) && AllWritable(Texts(ss[2..]))
    ensures EncodeAll(Texts(ss)) == TwoStrings((Ascii(ss[0]), Ascii(ss[1]))) + EncodeAll(Texts(ss[2..]))
  {
    TextSize(ss[0]);
    TextSize(ss[1]);
    TextsSize(ss[2..]);
    hide Encode, EncodeAll, Ascii, AllWritable;
    assert ss[1..][1..] == ss[2..];
    var key, value, rest := Text(Ascii(ss[0])), Text(Ascii(ss[1])), Texts(ss[2..]);
    assert Texts(ss[1..]) == [value] + rest && Texts(ss) == [key] + Texts(ss[1..]);
    EncodeAllCons(value, rest);
    EncodeAllCons(key, Texts(ss[1..]));
  }

  lemma {:induction false} PairsOfBytes(ss: seq<string>)
    requires |ss| % 2 == 0 && Short(ss) && Clean(ss)
    ensures AllSendable(PairsOf(ss)) && AllWritable(Texts(ss)) && EncodeAll(Texts(ss)) == PairBytes(PairsOf(ss))
  {
    hide Ascii, NulFree, TwoStrings, Writable, Encode;
    if ss != [] {
      TwoTexts(ss);
      PairsOfBytes(ss[2..]);
      OneMoreSendable((Ascii(ss[0]), Ascii(ss[1])), PairsOf(ss[2..]));
      assert PairsOf(ss)[1..] == PairsOf(ss[2..]);
    }
  }

  lemma StringsCome(r: Response)
    ensures |Strings(r)| % 2 == 0 && |Strings(r)| <= 10
  {
  }

  lemma EncodeMap(n: nat)
    requires n < TWO32
    ensures Fits(MapObject(n)) && Encode(MapOf(n)) == Header(MapObject(n))
    ensures Header(MapObject(n)) != [] && Header(MapObject(n))[0] != 0x70
  {
    SizesFit(n);
  }

  lemma {:induction false} ResponseBytes(r: Response)
    requires Short(Strings(r)) && Clean(Strings(r))
    ensures |Strings(r)| % 2 == 0
    ensures var n, ps := |Strings(r)|, PairsOf(Strings(r));
      && n < TWO32 && AllWritable(Fields(r)) && AllSendable(ps) && Fits(MapObject(n))
      && EncodeAll(Fields(r)) == Header(MapObject(n)) + PairBytes(ps)
  {
    StringsCome(r);
    hide Strings, Encode, EncodeAll, Texts, PairsOf, PairBytes, Clean, Short, AllSendable, AllWritable, Header,
      MapObject, Fits;
    var ss := Strings(r);
    PairsOfBytes(ss);
    SizesFit(|ss|);
    EncodeAllCons(MapOf(|ss|), Texts(ss));
    EncodeMap(|ss|);
  }

  /** The bytes of a response are read as its strings, two by two, to the last byte. */
  lemma {:induction false} ResponseIsRead(r: Response)
    requires Short(Strings(r)) && Clean(Strings(r))
    ensures |Strings(r)| % 2 == 0 && AllWritable(Fields(r))
    ensures ReadMessage(EncodeAll(Fields(r))) == Some((PairsOf(Strings(r)), |EncodeAll(Fields(r))|))
    ensures EncodeAll(Fields(r)) != Ascii("pong")
  {
    hide Strings, Header, MapObject, Clean, Short, ReadMessage, ReadPairs, PairsOf, Fields, AllSendable, AllWritable,
      EncodeAll, Encode, Fits, PairBytes;
    ResponseBytes(r);
    var n, ps := |Strings(r)|, PairsOf(Strings(r));
    EncodeMap(n);
    assert Ascii("pong")[0] == 0x70;
    hide Ascii;
    ReadMessageHeader(n, PairBytes(ps));
    ReadPairsBytes(|ps|, ps, []);
    assert ps[..|ps|] == ps && PairBytes(ps) + [] == PairBytes(ps);
    assert EncodeAll(Fields(r))[0] == Header(MapObject(n))[0];
  }

  // ----- what the owner gets -----

  lemma KeyLetters()
    ensures Ascii("r")[0] == 'r' as int && Ascii("re")[0] == 'r' as int && Ascii("ru")[0] == 'r' as int
    ensures Ascii("re")[1] == 'e' as int && Ascii("ru")[1] == 'u' as int && Ascii("s")[0] == 's' as int
    ensures Ascii("c")[0] == 'c' as int && Ascii("p")[0] == 'p' as int && Ascii("t")[0] == 't' as int
    ensures Ascii("a")[0] == 'a' as int && Ascii("o")[0] == 'o' as int && Ascii("w")[0] == 'w' as int
    ensures Ascii("h")[0] == 'h' as int && Ascii("u")[0] == 'u' as int && Ascii("k")[0] == 'k' as int
    ensures Ascii("d")[0] == 'd' as int
  {
  }

  lemma SpeltPlain(value: Chars)
    ensures SpeltOut((Ascii("r"), value)) == Some((Ascii("request"), value)) && Ascii("r") != Ascii("t")
    ensures SpeltOut((Ascii("re"), value)) == Some((Ascii("response"), value)) && Ascii("re") != Ascii("t")
    ensures SpeltOut((Ascii("s"), value)) == Some((Ascii("shellid"), value)) && Ascii("s") != Ascii("t")
    ensures SpeltOut((Ascii("ru"), value)) == Some((Ascii("running"), value)) && Ascii("ru") != Ascii("t")
    ensures SpeltOut((Ascii("c"), value)) == Some((Ascii("code"), value)) && Ascii("c") != Ascii("t")
    ensures SpeltOut((Ascii("p"), value)) == Some((Ascii("projectid"), value)) && Ascii("p") != Ascii("t")
  {
    KeyLetters();
    hide Ascii;
  }

  lemma SpeltActions()
    ensures SpeltOut((Ascii("a"), Ascii("o"))) == Some((Ascii("action"), Ascii("open")))
    ensures SpeltOut((Ascii("a"), Ascii("c"))) == Some((Ascii("action"), Ascii("close")))
    ensures SpeltOut((Ascii("a"), Ascii("s"))) == Some((Ascii("action"), Ascii("status")))
    ensures Ascii("a") != Ascii("t")
  {
    KeyLetters();
    hide Ascii;
  }

  /** One more attribute. */
  lemma {:induction false} Spelt(d: Draft, ss: seq<string>, name: string, value: string)
    requires |ss| >= 2 && |ss| % 2 == 0
    requires Ascii(ss[0]) != Ascii("t") && SpeltOut((Ascii(ss[0]), Ascii(ss[1]))) == Some((Ascii(name), Ascii(value)))
    ensures WithPairs(d, PairsOf(ss)) ==
      WithPairs(d.(attributes := d.attributes[Ascii(name) := Ascii(value)]), PairsOf(ss[2..]))
  {
    hide Ascii, SpeltOut;
    assert PairsOf(ss)[1..] == PairsOf(ss[2..]);
  }

  /** The attributes of the stanza for a response: `shell` and `code` are how its numbers are written. */
  function Attributes(r: Response, shell: string, code: string): map<Chars, Chars> {
    match r
    case Opened(request, _, running) =>
      map[Ascii("action") := Ascii("open"), Ascii("request") := Ascii(request), Ascii("response") := Ascii("done"),
          Ascii("shellid") := Ascii(shell), Ascii("running") := Ascii(if running then "true" else "false")]
    case OpenFailed(request) =>
      map[Ascii("action") := Ascii("open"), Ascii("request") := Ascii(request), Ascii("response") := Ascii("error")]
    case Closed(request, text, _) =>
      map[Ascii("action") := Ascii("close"), Ascii("request") := Ascii(request), Ascii("shellid") := Ascii(text),
          Ascii("code") := Ascii(code)]
    case Status(request, project, running) =>
      map[Ascii("action") := Ascii("status"), Ascii("request") := Ascii(request),
          Ascii("projectid") := Ascii(project), Ascii("running") := Ascii(if running then "true" else "false")]
  }

  lemma {:induction false} NoMore()
    ensures forall d :: WithPairs(d, PairsOf([])) == Shells(d.attributes, d.texts)
  {
  }

  /** The attributes all responses begin with: the action, the request and one more. */
  lemma {:induction false} ThreeSpelt(ss: seq<string>, action: string, name: string)
    requires |ss| >= 6 && |ss| % 2 == 0 && ss[0] == "a" && ss[2] == "r"
    requires SpeltOut((Ascii("a"), Ascii(ss[1]))) == Some((Ascii("action"), Ascii(action)))
    requires Ascii(ss[4]) != Ascii("t") && SpeltOut((Ascii(ss[4]), Ascii(ss[5]))) == Some((Ascii(name), Ascii(ss[5])))
    ensures WithPairs(Draft(map[], []), PairsOf(ss)) ==
      WithPairs(Draft(map[Ascii("action") := Ascii(action), Ascii("request") := Ascii(ss[3]),
                          Ascii(name) := Ascii(ss[5])], []), PairsOf(ss[6..]))
  {
    hide Ascii, SpeltOut, PairsOf, WithPairs;
    SpeltActions();
    SpeltPlain(Ascii(ss[3]));
    var d1 := Draft(map[Ascii("action") := Ascii(action)], []);
    var d2 := d1.(attributes := d1.attributes[Ascii("request") := Ascii(ss[3])]);
    Spelt(Draft(map[], []), ss, "action", action);
    Spelt(d1, ss[2..], "request", ss[3]);
    Spelt(d2, ss[4..], name, ss[5]);
    assert ss[2..][2..] == ss[4..] && ss[4..][2..] == ss[6..];
  }

  lemma {:induction false} OpenedSpelt(r: Response)
    requires r.Opened?
    ensures WithPairs(Draft(map[], []), PairsOf(Strings(r))) == Shells(Attributes(r, Decimal(r.slot), ""), [])
  {
    hide Ascii, SpeltOut, Decimal, PairsOf, WithPairs;
    var ss := Strings(r);
    SpeltActions();
    SpeltPlain(Ascii(ss[5]));
    SpeltPlain(Ascii(ss[7]));
    SpeltPlain(Ascii(ss[9]));
    NoMore();
    ThreeSpelt(ss, "open", "response");
    var d3 := Draft(map[Ascii("action") := Ascii("open"), Ascii("request") := Ascii(r.request),
                        Ascii("response") := Ascii("done")], []);
    var d4 := d3.(attributes := d3.attributes[Ascii("shellid") := Ascii(Decimal(r.slot))]);
    Spelt(d3, ss[6..], "shellid", ss[7]);
    Spelt(d4, ss[8..], "running", ss[9]);
    assert ss[6..][2..] == ss[8..] && ss[8..][2..] == [];
  }

  lemma {:induction false} OpenFailedSpelt(r: Response)
    requires r.OpenFailed?
    ensures WithPairs(Draft(map[], []), PairsOf(Strings(r))) == Shells(Attributes(r, "", ""), [])
  {
    hide Ascii, SpeltOut, PairsOf, WithPairs;
    var ss := Strings(r);
    SpeltActions();
    SpeltPlain(Ascii(ss[5]));
    NoMore();
    ThreeSpelt(ss, "open", "response");
  }

  lemma {:induction false} ClosedSpelt(r: Response)
    requires r.Closed?
    ensures WithPairs(Draft(map[], []), PairsOf(Strings(r))) == Shells(Attributes(r, "", Printed(r.code)), [])
  {
    hide Ascii, SpeltOut, Printed, PairsOf, WithPairs;
    var ss := Strings(r);
    SpeltActions();
    SpeltPlain(Ascii(ss[5]));
    SpeltPlain(Ascii(ss[7]));
    NoMore();
    ThreeSpelt(ss, "close", "shellid");
    Spelt(Draft(map[Ascii("action") := Ascii("close"), Ascii("request") := Ascii(r.request),
                    Ascii("shellid") := Ascii(r.shell)], []), ss[6..], "code", ss[7]);
    assert ss[6..][2..] == [];
  }

  lemma {:induction false} StatusSpelt(r: Response)
    requires r.Status?
    ensures WithPairs(Draft(map[], []), PairsOf(Strings(r))) == Shells(Attributes(r, "", ""), [])
  {
    hide Ascii, SpeltOut, PairsOf, WithPairs;
    var ss := Strings(r);
    SpeltActions();
    SpeltPlain(Ascii(ss[5]));
    SpeltPlain(Ascii(ss[7]));
    NoMore();
    ThreeSpelt(ss, "status", "projectid");
    Spelt(Draft(map[Ascii("action") := Ascii("status"), Ascii("request") := Ascii(r.request),
                    Ascii("projectid") := Ascii(r.project)], []), ss[6..], "running", ss[7]);
    assert ss[6..][2..] == [];
  }

  /** How the numbers of a response are written: as digits that read as them. */
  predicate Written(r: Response, shell: string, code: string) {
    && (r.Opened? ==> Digits(shell) && NumberIn(shell) == r.slot)
    && (r.Closed? && r.code >= 0 ==> Digits(code) && NumberIn(code) == r.code)
    && (r.Closed? && r.code < 0 ==>
          code != [] && code[0] == '-' && Digits(code[1..]) && NumberIn(code[1..]) == -r.code)
  }

  lemma {:induction false} ResponseSpelt(r: Response) returns (shell: string, code: string)
    ensures Written(r, shell, code) && |Strings(r)| % 2 == 0
    ensures WithPairs(Draft(map[], []), PairsOf(Strings(r))) == Shells(Attributes(r, shell, code), [])
  {
    StringsCome(r);
    hide Strings, WithPairs, PairsOf, Ascii;
    shell, code := "", "";
    match r
    case Opened(_, slot, _) =>
      shell := Decimal(slot);
      DecimalReads(slot);
      OpenedSpelt(r);
      assert Attributes(r, shell, code) == Attributes(r, Decimal(r.slot), "");
    case OpenFailed(_) => OpenFailedSpelt(r);
    case Closed(_, _, n) =>
      code := Printed(n);
      PrintedReads(n);
      ClosedSpelt(r);
    case Status(_, _, _) => StatusSpelt(r);
  }

  /** The hypervisor sends a response and the server receives it: the owner gets a stanza with the
      action, the request and the other values by their names, if the response fits its buffer and
      there is a connection, and nothing otherwise. */
  method SendAndDeliver(r: Response, connected: bool) returns (stanza: Stanza, ghost shell: string, ghost code: string)
    requires Short(Strings(r)) && Clean(Strings(r))
    ensures Written(r, shell, code)
    ensures stanza == if FitsBuffer(r) && connected then Shells(Attributes(r, shell, code), []) else Nothing
  {
    hide Strings, Attributes, WithPairs, PairsOf, Short, Clean, ReadMessage, EncodeAll, Fields, FitsBuffer, Ascii;
    shell, code := ResponseSpelt(r);
    ResponseIsRead(r);
    var published := SendResponse(r);
    if published.None? {
      stanza := Nothing;
    } else {
      var message := new byte[|published.value|](i requires 0 <= i < |published.value| => published.value[i]);
      assert message[..] == published.value;
      stanza := OnHypervisorMessage(message, connected);
    }
  }

  // ----- both directions -----

  /** What the server abbreviates for the hypervisor it spells out again in what comes back; only the
      action "resize" has no way back. */
  lemma AbbreviationsReturn(name: Chars)
    ensures KeyOf(name).Some? ==> NameOf(KeyOf(name).value) == Some(name)
    ensures ActionOf(name).Some? && name != Ascii("resize") ==> WordOf(ActionOf(name).value) == Some(name)
    ensures name == Ascii("resize") ==> ActionOf(name).Some? && WordOf(ActionOf(name).value) == None
  {
    Letters();
    KeysOfNames();
    CodesOfActions();
    KeyLetters();
    hide Ascii, Letter;
  }

  lemma {:induction false} NeverKeepalive(d: Draft, ps: seq<Pair>)
    ensures !WithPairs(d, ps).Keepalive?
    decreases |ps|
  {
    hide WithPair;
    if ps != [] && WithPair(d, ps[0]).Some? {
      NeverKeepalive(WithPair(d, ps[0]).value, ps[1..]);
    }
  }

  /** Only "pong" is a sign of life, and only with a connection it is passed on. */
  lemma {:induction false} OnlyPongIsKeepalive(b: seq<byte>, connected: bool)
    ensures ServerReact(b, connected) == Keepalive <==>
      connected && b == ['p' as int, 'o' as int, 'n' as int, 'g' as int]
    ensures !connected ==> ServerReact(b, connected) == Nothing
  {
    hide ReadMessage, WithPair;
    assert Ascii("pong") == ['p' as int, 'o' as int, 'n' as int, 'g' as int];
    if ReadMessage(b).Some? {
      NeverKeepalive(Draft(map[], []), ReadMessage(b).value.0);
    }
  }

  /** The pairs that can be put into a stanza, by name. */
  predicate Spellable(p: Pair) {
    if p.0 == Ascii("t") then |p.1| < 0x3fff_ffff
    else if p.0 == Ascii("a") then
      p.1 in {Ascii("o"), Ascii("c"), Ascii("k"), Ascii("s"), Ascii("p"), Ascii("d")}
    else
      p.0 in {Ascii("w"), Ascii("h"), Ascii("r"), Ascii("p"), Ascii("s"), Ascii("u"), Ascii("c"), Ascii("ru"),
              Ascii("re")}
  }

  lemma SpellableIs(d: Draft, p: Pair)
    ensures WithPair(d, p).Some? <==> Spellable(p)
  {
    KeyLetters();
    hide Ascii, Rfc4648Text;
  }

  /** A stanza comes of the pairs exactly when all of them can be put into it. */
  lemma {:induction false} AllSpellable(d: Draft, ps: seq<Pair>)
    ensures WithPairs(d, ps).Shells? <==> forall p :: p in ps ==> Spellable(p)
    decreases |ps|
  {
    hide WithPair, Spellable;
    if ps != [] {
      SpellableIs(d, ps[0]);
      if WithPair(d, ps[0]).Some? {
        AllSpellable(WithPair(d, ps[0]).value, ps[1..]);
        assert forall p :: p in ps <==> p == ps[0] || p in ps[1..];
      } else {
        assert ps[0] in ps;
      }
    }
  }

  /** The texts under "t", in order. */
  function TextsIn(ps: seq<Pair>): seq<Chars> {
    if ps == [] then []
    else (if ps[0].0 == Ascii("t") then [ps[0].1] else []) + TextsIn(ps[1..])
  }

  /** `encoded` are the texts as the owner can decode them: each one gives back the bytes. */
  predicate Decodes(encoded: seq<string>, texts: seq<Chars>) {
    && |encoded| == |texts|
    && forall i :: 0 <= i < |texts| ==>
         var body := Body(encoded[i] + ['\0']);
         AllSymbols(body) && ByteCount(|body|) == |texts[i]| && DecodedBytes(Values(body)) == texts[i]
  }

  lemma {:induction false} DecodesOneMore(encoded: seq<string>, texts: seq<Chars>, text: Chars)
    requires Decodes(encoded, texts)
    ensures Decodes(encoded + [Rfc4648Text(text)], texts + [text])
  {
    hide Rfc4648Text, Body, AllSymbols, ByteCount, DecodedBytes, Values;
    Base64.RoundTrip(text);
  }

  /** Every text arrives, in order, and decodes to what was sent. */
  lemma {:induction false} TextsArrive(d: Draft, ps: seq<Pair>, texts: seq<Chars>)
    requires WithPairs(d, ps).Shells? && Decodes(d.texts, texts)
    ensures Decodes(WithPairs(d, ps).texts, texts + TextsIn(ps))
    decreases |ps|
  {
    hide SpeltOut, Ascii, Rfc4648Text, Decodes;
    if ps == [] {
      assert texts + [] == texts;
    } else {
      var more := WithPair(d, ps[0]).value;
      if ps[0].0 == Ascii("t") {
        DecodesOneMore(d.texts, texts, ps[0].1);
        TextsArrive(more, ps[1..], texts + [ps[0].1]);
        assert texts + [ps[0].1] + TextsIn(ps[1..]) == texts + TextsIn(ps);
      } else {
        TextsArrive(more, ps[1..], texts);
        assert TextsIn(ps) == TextsIn(ps[1..]);
      }
    }
  }
}
