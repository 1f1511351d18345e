/** The messages of shells/shells.c from the stanza's side: which stanzas arrive at the hypervisor, and
    as what, said by the names and words that stand in them. */
module Stanzas {
  import opened Basics
  import opened Bytes
  import opened MessagePack
  import opened MessagePackItems
  import opened MessagePackBuffer
  import opened Framing

  // ----- names -----

  /** The attribute names that are passed on. */
  predicate IsName(name: Chars) {
    || name == Ascii("width") || name == Ascii("height") || name == Ascii("request") || name == Ascii("action")
    || name == Ascii("projectid") || name == Ascii("shellid") || name == Ascii("userid")
  }

  predicate IsAction(word: Chars) {
    || word == Ascii("open") || word == Ascii("close") || word == Ascii("keys") || word == Ascii("status")
    || word == Ascii("poweroff") || word == Ascii("disconnect") || word == Ascii("resize")
  }

  /** An attribute that is passed over. */
  predicate IsAddress(a: Attribute) {
    Ascii("gadgetid") <= a.name || Ascii("xmlns") <= a.name
  }

  /** Every attribute is one of those, and an action is one of those words. */
  predicate Understood(attrs: seq<Attribute>) {
    forall i :: 0 <= i < |attrs| && !IsAddress(attrs[i]) ==>
      IsName(attrs[i].name) && (attrs[i].name == Ascii("action") ==> IsAction(attrs[i].value))
  }

  lemma Letters()
    ensures Ascii("width")[0] == 'w' as int && Ascii("height")[0] == 'h' as int && Ascii("request")[0] == 'r' as int
    ensures Ascii("action")[0] == 'a' as int && Ascii("projectid")[0] == 'p' as int
    ensures Ascii("shellid")[0] == 's' as int && Ascii("userid")[0] == 'u' as int
    ensures Ascii("gadgetid")[0] == 'g' as int && Ascii("xmlns")[0] == 'x' as int
    ensures Ascii("open")[0] == 'o' as int && Ascii("close")[0] == 'c' as int && Ascii("keys")[0] == 'k' as int
    ensures Ascii("status")[0] == 's' as int && Ascii("poweroff")[0] == 'p' as int
    ensures Ascii("disconnect")[0] == 'd' as int && Ascii("resize")[0] == 'r' as int
  {
  }

  lemma SingleLetters()
    ensures Ascii("w") == Letter('w') && Ascii("h") == Letter('h') && Ascii("r") == Letter('r')
    ensures Ascii("a") == Letter('a') && Ascii("p") == Letter('p') && Ascii("s") == Letter('s')
    ensures Ascii("u") == Letter('u') && Ascii("t") == Letter('t') && Ascii("o") == Letter('o')
    ensures Ascii("c") == Letter('c') && Ascii("k") == Letter('k') && Ascii("d") == Letter('d')
  {
  }

  lemma KeysOfNames()
    ensures KeyOf(Ascii("width")) == Some(Ascii("w")) && KeyOf(Ascii("height")) == Some(Ascii("h"))
    ensures KeyOf(Ascii("request")) == Some(Ascii("r")) && KeyOf(Ascii("action")) == Some(Ascii("a"))
    ensures KeyOf(Ascii("projectid")) == Some(Ascii("p")) && KeyOf(Ascii("shellid")) == Some(Ascii("s"))
    ensures KeyOf(Ascii("userid")) == Some(Ascii("u")) && Letter('t') == Ascii("t")
  {
    Letters();
    SingleLetters();
    hide Ascii, Letter;
  }

  lemma CodesOfActions()
    ensures ActionOf(Ascii("open")) == Some(Ascii("o")) && ActionOf(Ascii("close")) == Some(Ascii("c"))
    ensures ActionOf(Ascii("keys")) == Some(Ascii("k")) && ActionOf(Ascii("status")) == Some(Ascii("s"))
    ensures ActionOf(Ascii("poweroff")) == Some(Ascii("p")) && ActionOf(Ascii("disconnect")) == Some(Ascii("d"))
    ensures ActionOf(Ascii("resize")) == Some(Ascii("r"))
  {
    Letters();
    SingleLetters();
    hide Ascii, Letter;
  }

  lemma OnlyActionStartsSo(name: Chars)
    requires IsName(name)
    ensures Ascii("action") <= name <==> name == Ascii("action")
    ensures !(Ascii("gadgetid") <= name) && !(Ascii("xmlns") <= name)
  {
    Letters();
    hide Ascii;
  }

  lemma UnderstoodAttribute(a: Attribute)
    ensures IsAddress(a) <==> Skipped(a)
    ensures !IsAddress(a) ==>
      (Renamed(a).Some? <==> IsName(a.name) && (a.name == Ascii("action") ==> IsAction(a.value)))
  {
    if IsName(a.name) {
      OnlyActionStartsSo(a.name);
    }
    hide Ascii;
  }

  /** The stanzas that are understood are those the writer can rename. */
  lemma {:induction false} UnderstoodIsKnown(attrs: seq<Attribute>)
    ensures Understood(attrs) <==> AllKnown(attrs)
  {
    hide IsAddress, Skipped, Renamed, IsName, IsAction, Ascii;
    forall i | 0 <= i < |attrs|
      ensures IsAddress(attrs[i]) <==> Skipped(attrs[i])
      ensures !IsAddress(attrs[i]) ==> (Renamed(attrs[i]).Some? <==>
        IsName(attrs[i].name) && (attrs[i].name == Ascii("action") ==> IsAction(attrs[i].value)))
    {
      UnderstoodAttribute(attrs[i]);
    }
  }

  // ----- addresses -----

  /** Exactly one gadgetid and one xmlns. */
  predicate Addressed(attrs: seq<Attribute>, g: nat, x: nat) {
    && g < |attrs| && x < |attrs| && g != x
    && Ascii("gadgetid") <= attrs[g].name && Ascii("xmlns") <= attrs[x].name
    && forall i :: 0 <= i < |attrs| && IsAddress(attrs[i]) ==> i == g || i == x
  }

  lemma {:induction false} NoneSkipped(attrs: seq<Attribute>)
    requires forall i :: 0 <= i < |attrs| ==> !Skipped(attrs[i])
    ensures SkippedCount(attrs) == 0
  {
    if attrs != [] {
      NoneSkipped(attrs[1..]);
    }
  }

  lemma {:induction false} OneSkipped(attrs: seq<Attribute>, g: nat)
    requires g < |attrs| && forall i :: 0 <= i < |attrs| ==> (Skipped(attrs[i]) <==> i == g)
    ensures SkippedCount(attrs) == 1
  {
    hide Skipped;
    if g == 0 {
      NoneSkipped(attrs[1..]);
    } else {
      OneSkipped(attrs[1..], g - 1);
    }
  }

  lemma {:induction false} TwoSkipped(attrs: seq<Attribute>, g: nat, x: nat)
    requires g < x < |attrs| && forall i :: 0 <= i < |attrs| ==> (Skipped(attrs[i]) <==> i == g || i == x)
    ensures SkippedCount(attrs) == 2
  {
    hide Skipped;
    if g == 0 {
      OneSkipped(attrs[1..], x - 1);
    } else {
      TwoSkipped(attrs[1..], g - 1, x - 1);
    }
  }

  lemma {:induction false} AddressedSkips(attrs: seq<Attribute>, g: nat, x: nat)
    requires Addressed(attrs, g, x)
    ensures SkippedCount(attrs) == 2
  {
    TwoSkipped(attrs, if g < x then g else x, if g < x then x else g);
  }

  // ----- room -----

  /** The attributes in the text of a stanza, ` name="value"` each. */
  function AttributesSize(attrs: seq<Attribute>): nat {
    if attrs == [] then 0 else |attrs[0].name| + |attrs[0].value| + 4 + AttributesSize(attrs[1..])
  }

  /** `<shells`, the attributes, `/>` and at least as many characters as the text has bytes: a lower
      bound for the size of a stanza as text, which is the size of the buffer. */
  function StanzaSize(attrs: seq<Attribute>, text: Chars): nat {
    9 + AttributesSize(attrs) + |text|
  }

  lemma {:induction false} StringSize(s: Chars)
    requires |s| < TWO32
    ensures |StrBytes(s)| <= |s| + 5 && (|s| == 1 ==> |StrBytes(s)| == 2)
  {
  }

  lemma {:induction false} PairSize(a: Attribute)
    requires !Skipped(a) && Renamed(a).Some? && Sendable(a.value)
    ensures Sendable(Renamed(a).value.0) && Sendable(Renamed(a).value.1)
    ensures |TwoStrings(Renamed(a).value)| <= |a.name| + |a.value| + 4
  {
    RenamedSendable(a);
    UnderstoodAttribute(a);
    FirstLetters(a.name);
    FirstLetters(a.value);
    var (key, value) := Renamed(a).value;
    StringSize(key);
    StringSize(value);
    hide StrBytes, Ascii;
  }

  lemma SkippedName(a: Attribute)
    requires Skipped(a)
    ensures |a.name| >= 5
  {
  }

  lemma {:induction false} PairsSize(attrs: seq<Attribute>)
    requires AllKnown(attrs) && forall i :: 0 <= i < |attrs| ==> Sendable(attrs[i].value)
    ensures AllSendable(Pairs(attrs)) && |PairBytes(Pairs(attrs))| + 9 * SkippedCount(attrs) <= AttributesSize(attrs)
  {
    hide Renamed, Skipped, Sendable, TwoStrings;
    if attrs != [] {
      PairsSize(attrs[1..]);
      if Skipped(attrs[0]) {
        SkippedName(attrs[0]);
      } else {
        PairSize(attrs[0]);
        OneMoreSendable(Renamed(attrs[0]).value, Pairs(attrs[1..]));
        assert Pairs(attrs)[1..] == Pairs(attrs[1..]);
      }
    }
  }

  /** The buffer, as large as the stanza, always has room for the message. */
  lemma {:induction false} AlwaysRoom(attrs: seq<Attribute>, text: Chars)
    requires AllKnown(attrs) && Sendable(text) && SkippedCount(attrs) == 2
    requires forall i :: 0 <= i < |attrs| ==> Sendable(attrs[i].value)
    ensures AllSendable(AllPairs(attrs, text)) && |Message(attrs, text)| <= StanzaSize(attrs, text)
  {
    PairsSize(attrs);
    PairsSendable(attrs, text);
    StringSize(Letter('t'));
    StringSize(text);
    SizesFit(HeaderCount(attrs));
    assert |Header(MapObject(HeaderCount(attrs)))| <= 5;
    hide Sendable, Renamed, Skipped, StrBytes, Header, Pairs, AllKnown;
    assert AllPairs(attrs, text)[1..] == Pairs(attrs);
  }

  // ----- from the stanza to the map -----

  /** The map has an entry under `key` exactly when the stanza has an attribute `name`, and with its
      value. */
  ghost predicate Passed(hm: map<Chars, Chars>, attrs: seq<Attribute>, name: string, key: string) {
    && (Ascii(key) in hm <==> exists i :: 0 <= i < |attrs| && attrs[i].name == Ascii(name))
    && (forall i :: 0 <= i < |attrs| && attrs[i].name == Ascii(name) ==>
          Ascii(key) in hm && hm[Ascii(key)] == attrs[i].value)
  }

  /** An action `word` arrives under "a" as `code`. */
  ghost predicate Coded(hm: map<Chars, Chars>, attrs: seq<Attribute>, word: string, code: string) {
    forall i :: 0 <= i < |attrs| && attrs[i].name == Ascii("action") && attrs[i].value == Ascii(word) ==>
      Ascii("a") in hm && hm[Ascii("a")] == Ascii(code)
  }

  /** The map holds the renamed attributes, the text under "t", and nothing else. */
  ghost predicate Renders(hm: map<Chars, Chars>, attrs: seq<Attribute>) {
    && AllKnown(attrs)
    && (forall j :: 0 <= j < |attrs| && !Skipped(attrs[j]) ==>
          Renamed(attrs[j]).value.0 in hm && hm[Renamed(attrs[j]).value.0] == Renamed(attrs[j]).value.1)
    && (forall k :: k in hm && k != Letter('t') ==>
          exists j :: 0 <= j < |attrs| && !Skipped(attrs[j]) && Renamed(attrs[j]).value.0 == k)
  }

  lemma RenamedIs(a: Attribute, name: string, key: string)
    requires a.name == Ascii(name) && KeyOf(a.name) == Some(Ascii(key))
    ensures !Skipped(a)
    ensures a.name != Ascii("action") && Renamed(a).Some? ==> Renamed(a).value == (Ascii(key), a.value)
    ensures a.name == Ascii("action") && Renamed(a).Some? ==>
      ActionOf(a.value).Some? && Renamed(a).value == (Ascii(key), ActionOf(a.value).value)
  {
    assert IsName(a.name);
    UnderstoodAttribute(a);
    OnlyActionStartsSo(a.name);
    hide Ascii, ActionOf, IsName;
  }

  lemma RenamedFrom(a: Attribute, name: Chars)
    requires Renamed(a).Some? && KeyOf(name).Some? && Renamed(a).value.0 == KeyOf(name).value
    ensures a.name == name
  {
    hide KeyOf, ActionOf;
    KeysAreInjective(name, a.name);
  }

  lemma {:induction false} PassedIs(hm: map<Chars, Chars>, attrs: seq<Attribute>, name: string, key: string)
    requires Renders(hm, attrs) && KeyOf(Ascii(name)) == Some(Ascii(key))
    ensures Ascii(key) in hm <==> exists i :: 0 <= i < |attrs| && attrs[i].name == Ascii(name)
    ensures Ascii(name) != Ascii("action") ==> Passed(hm, attrs, name, key)
  {
    KeysAreInjective(Ascii(name), Ascii(name));
    hide Skipped, Renamed, KeyOf, Ascii, Letter;
    forall i | 0 <= i < |attrs| && attrs[i].name == Ascii(name)
      ensures Ascii(key) in hm && (Ascii(name) != Ascii("action") ==> hm[Ascii(key)] == attrs[i].value)
    {
      RenamedIs(attrs[i], name, key);
    }
    if Ascii(key) in hm {
      var j :| 0 <= j < |attrs| && !Skipped(attrs[j]) && Renamed(attrs[j]).value.0 == Ascii(key);
      RenamedFrom(attrs[j], Ascii(name));
    }
  }

  lemma {:induction false} CodedIs(hm: map<Chars, Chars>, attrs: seq<Attribute>, word: string, code: string)
    requires Renders(hm, attrs) && ActionOf(Ascii(word)) == Some(Ascii(code))
    ensures Coded(hm, attrs, word, code)
  {
    KeysOfNames();
    hide Skipped, Renamed, KeyOf, ActionOf, Ascii, Letter;
    forall i | 0 <= i < |attrs| && attrs[i].name == Ascii("action") && attrs[i].value == Ascii(word)
      ensures Ascii("a") in hm && hm[Ascii("a")] == Ascii(code)
    {
      RenamedIs(attrs[i], "action", "a");
    }
  }

  /** No other keys. */
  lemma {:induction false} OnlyTheseKeys(hm: map<Chars, Chars>, attrs: seq<Attribute>, key: Chars)
    requires Renders(hm, attrs) && key in hm
    ensures key in {Ascii("t"), Ascii("w"), Ascii("h"), Ascii("r"), Ascii("a"), Ascii("p"), Ascii("s"), Ascii("u")}
  {
    SingleLetters();
    if key != Letter('t') {
      var j :| 0 <= j < |attrs| && !Skipped(attrs[j]) && Renamed(attrs[j]).value.0 == key;
      assert KeyOf(attrs[j].name) == Some(key);
    }
    hide Ascii, Letter;
  }

  /** What arrives of a stanza: the text, the attributes under their letters, the action under its
      letter, and nothing else. */
  ghost predicate Arrives(hm: map<Chars, Chars>, attrs: seq<Attribute>, text: Chars) {
    && Ascii("t") in hm && hm[Ascii("t")] == text
    && Passed(hm, attrs, "width", "w") && Passed(hm, attrs, "height", "h") && Passed(hm, attrs, "request", "r")
    && Passed(hm, attrs, "projectid", "p") && Passed(hm, attrs, "shellid", "s") && Passed(hm, attrs, "userid", "u")
    && (Ascii("a") in hm <==> exists i :: 0 <= i < |attrs| && attrs[i].name == Ascii("action"))
    && Coded(hm, attrs, "open", "o") && Coded(hm, attrs, "close", "c") && Coded(hm, attrs, "keys", "k")
    && Coded(hm, attrs, "status", "s") && Coded(hm, attrs, "poweroff", "p")
    && Coded(hm, attrs, "disconnect", "d") && Coded(hm, attrs, "resize", "r")
    && (forall key :: key in hm ==>
          key in {Ascii("t"), Ascii("w"), Ascii("h"), Ascii("r"), Ascii("a"), Ascii("p"), Ascii("s"), Ascii("u")})
  }

  lemma NamesApart()
    ensures Ascii("width") != Ascii("action") && Ascii("height") != Ascii("action")
    ensures Ascii("request") != Ascii("action") && Ascii("projectid") != Ascii("action")
    ensures Ascii("shellid") != Ascii("action") && Ascii("userid") != Ascii("action")
  {
    Letters();
    hide Ascii;
  }

  lemma {:induction false} RendersArrives(hm: map<Chars, Chars>, attrs: seq<Attribute>, text: Chars)
    requires Renders(hm, attrs) && Letter('t') in hm && hm[Letter('t')] == text
    ensures Arrives(hm, attrs, text)
  {
    hide Renders, KeyOf, ActionOf, Ascii, Letter, Passed, Coded;
    NamesApart();
    KeysOfNames();
    CodesOfActions();
    PassedIs(hm, attrs, "width", "w");
    PassedIs(hm, attrs, "height", "h");
    PassedIs(hm, attrs, "request", "r");
    PassedIs(hm, attrs, "action", "a");
    PassedIs(hm, attrs, "projectid", "p");
    PassedIs(hm, attrs, "shellid", "s");
    PassedIs(hm, attrs, "userid", "u");
    CodedIs(hm, attrs, "open", "o");
    CodedIs(hm, attrs, "close", "c");
    CodedIs(hm, attrs, "keys", "k");
    CodedIs(hm, attrs, "status", "s");
    CodedIs(hm, attrs, "poweroff", "p");
    CodedIs(hm, attrs, "disconnect", "d");
    CodedIs(hm, attrs, "resize", "r");
    forall key | key in hm
      ensures key in {Ascii("t"), Ascii("w"), Ascii("h"), Ascii("r"), Ascii("a"), Ascii("p"), Ascii("s"), Ascii("u")}
    {
      OnlyTheseKeys(hm, attrs, key);
    }
  }

  /** No two of the attributes that are passed on have the same name. */
  predicate NamedOnce(attrs: seq<Attribute>) {
    forall i, j :: 0 <= i < j < |attrs| && IsName(attrs[i].name) ==> attrs[i].name != attrs[j].name
  }

  lemma {:induction false} StanzaIsKnown(attrs: seq<Attribute>, text: Chars, g: nat, x: nat)
    requires Understood(attrs) && Addressed(attrs, g, x) && NamedOnce(attrs)
    ensures AllKnown(attrs) && SkippedCount(attrs) == 2 && DistinctNames(attrs)
  {
    UnderstoodIsKnown(attrs);
    forall i | 0 <= i < |attrs|
      ensures IsAddress(attrs[i]) <==> Skipped(attrs[i])
      ensures !IsAddress(attrs[i]) ==> IsName(attrs[i].name)
    {
      UnderstoodAttribute(attrs[i]);
    }
    hide Ascii, IsName, IsAction;
    AddressedSkips(attrs, g, x);
  }

  /** The server sends a stanza and the hypervisor receives it, through a buffer of the stanza's size.
      With one gadgetid, one xmlns, and otherwise the seven names, each at most once, and an action
      that is one of the seven words, everything arrives. */
  method SendAndReceive(attrs: seq<Attribute>, text: Chars, size: nat, ghost g: nat, ghost x: nat)
    returns (hm: map<Chars, Chars>)
    requires Understood(attrs) && Addressed(attrs, g, x) && NamedOnce(attrs) && |attrs| < TWO31
    requires Sendable(text) && forall i :: 0 <= i < |attrs| ==> Sendable(attrs[i].value)
    requires size >= StanzaSize(attrs, text)
    ensures Arrives(hm, attrs, text)
  {
    StanzaIsKnown(attrs, text, g, x);
    AlwaysRoom(attrs, text);
    RoundTrip(attrs, text);
    hide Renamed, Skipped, Sendable, Message, PutAll, React, SkippedCount, StanzaSize, Ascii, Letter, Arrives;
    var sent := SendShells(attrs, text, size);
    var message := new byte[|sent.value|](i requires 0 <= i < |sent.value| => sent.value[i]);
    assert message[..] == sent.value;
    var r := OnMessage(message);
    hm := r.hm;
    RendersArrives(hm, attrs, text);
  }
}
