/** The JSON text of the card list, and when it reads back as the cards it was printed from. */
module Listing {
  import opened Base
  import opened Codec
  import opened Numerals
  import opened Json

  function NameOf(c: Card): CString {
    UpToNul(c.name)
  }

  // ---- The text ----

  function Prefix(count: nat): bytes {
    Ascii("{\"status\":\"ok\",\"count\":") + Dec(count) + Ascii(",\"cards\":[")
  }

  function Entry(c: Card): bytes {
    Ascii("{\"id\":") + Dec(c.id) + Ascii(",\"name\":\"") + NameOf(c) + Ascii("\",\"active\":")
    + Dec(c.active) + Ascii(",\"timestamp\":") + Dec(c.timestamp) + Ascii("}")
  }

  function Joined(cards: seq<Card>): bytes {
    if cards == [] then []
    else if |cards| == 1 then Entry(cards[0])
    else Entry(cards[0]) + [COMMA] + Joined(cards[1..])
  }

  lemma {:induction false} JoinedAppend(cards: seq<Card>, c: Card)
    ensures Joined(cards + [c]) == Joined(cards) + (if cards == [] then [] else [COMMA]) + Entry(c)
  {
    hide Entry;
    if cards == [] {
      assert cards + [c] == [c];
    } else {
      assert (cards + [c])[1..] == cards[1..] + [c];
      JoinedAppend(cards[1..], c);
    }
  }

  /** The text printed for a database that counts `count` cards, of which these are shown. */
  function ListText(count: nat, cards: seq<Card>): bytes {
    Prefix(count) + Joined(cards) + Ascii("]}")
  }

  // ---- The value ----

  function CardValue(c: Card): Value {
    Obj([(Ascii("id"), Num(Dec(c.id))), (Ascii("name"), Str(NameOf(c))),
         (Ascii("active"), Num(Dec(c.active))), (Ascii("timestamp"), Num(Dec(c.timestamp)))])
  }

  function CardValues(cards: seq<Card>): (r: seq<Value>)
    ensures |r| == |cards|
  {
    if cards == [] then [] else [CardValue(cards[0])] + CardValues(cards[1..])
  }

  function ListValue(count: nat, cards: seq<Card>): Value {
    Obj([(Ascii("status"), Str(Ascii("ok"))), (Ascii("count"), Num(Dec(count))),
         (Ascii("cards"), Arr(CardValues(cards)))])
  }

  // ---- Reading what was printed ----

  /** What may follow a value inside the list. */
  predicate Delimited(rest: bytes) {
    rest != [] && rest[0] in {COMMA, 93, 125}
  }

  lemma {:induction false} DigitRunOf(s: bytes, rest: bytes)
    requires (forall i :: 0 <= i < |s| ==> IsDigit(s[i])) && Delimited(rest)
    ensures DigitRun(s + rest) == |s|
  {
    if s == [] {
      assert s + rest == rest;
    } else {
      assert (s + rest)[1..] == s[1..] + rest;
      DigitRunOf(s[1..], rest);
    }
  }

  lemma NumberEnds(n: nat, rest: bytes)
    requires Delimited(rest)
    ensures NumberLength(Dec(n) + rest) == Some(|Dec(n)|)
  {
    var d := Dec(n);
    var s := d + rest;
    DigitRunOf(d, rest);
    assert s[0..] == s && s[0] == d[0];
    if s[0] == 48 {
      assert n == 0;
      assert Dec(0) == [48];
    }
    hide DigitRun, Dec;
    assert s[|d|..] == rest && s[|d| + 0..] == rest;
  }

  lemma NumberReads(n: nat, rest: bytes)
    requires Delimited(rest)
    ensures ReadValue(Dec(n) + rest) == Some((Num(Dec(n)), rest))
  {
    hide NumberLength, Dec;
    var s := Dec(n) + rest;
    NumberEnds(n, rest);
    assert s[0] == Dec(n)[0];
    assert s[|Dec(n)|..] == rest && s[..|Dec(n)|] == Dec(n);
    assert Ascii("true")[0] == 116 && Ascii("false")[0] == 102 && Ascii("null")[0] == 110;
  }

  // The text of one card from each of its members on.

  function FromTimestamp(c: Card, rest: bytes): bytes {
    Key(Ascii("timestamp")) + (Dec(c.timestamp) + ([125] + rest))
  }

  function FromActive(c: Card, rest: bytes): bytes {
    Key(Ascii("active")) + (Dec(c.active) + ([COMMA] + FromTimestamp(c, rest)))
  }

  function FromName(c: Card, rest: bytes): bytes {
    Key(Ascii("name")) + ([QUOTE] + (NameOf(c) + ([QUOTE] + ([COMMA] + FromActive(c, rest)))))
  }

  function FromId(c: Card, rest: bytes): bytes {
    Key(Ascii("id")) + (Dec(c.id) + ([COMMA] + FromName(c, rest)))
  }

  lemma Assoc(a: bytes, b: bytes, c: bytes)
    ensures a + b + c == a + (b + c)
  {
  }

  lemma IdLiteral()
    ensures Ascii("{\"id\":") == [123] + Key(Ascii("id")) && Plain(Ascii("id"))
  {
  }

  lemma NameLiteral()
    ensures Ascii(",\"name\":\"") == [COMMA] + (Key(Ascii("name")) + [QUOTE]) && Plain(Ascii("name"))
  {
  }

  lemma ActiveLiteral()
    ensures Ascii("\",\"active\":") == [QUOTE] + ([COMMA] + Key(Ascii("active"))) && Plain(Ascii("active"))
  {
  }

  lemma TimestampLiteral()
    ensures Ascii(",\"timestamp\":") == [COMMA] + Key(Ascii("timestamp")) && Plain(Ascii("timestamp"))
  {
  }

  lemma Piece(x: bytes, a: bytes, b: bytes, c: bytes, rest: bytes)
    ensures x + a + (b + c) + rest == x + (a + (b + (c + rest)))
    ensures c == [] ==> x + a + b + rest == x + (a + (b + rest))
  {
  }

  lemma EntryText(c: Card, rest: bytes)
    ensures Entry(c) + rest == [123] + FromId(c, rest)
  {
    var e0 := Ascii("{\"id\":");
    var e1 := e0 + Dec(c.id) + Ascii(",\"name\":\"");
    var e2 := e1 + NameOf(c) + Ascii("\",\"active\":");
    var e3 := e2 + Dec(c.active) + Ascii(",\"timestamp\":");
    assert Entry(c) == e3 + Dec(c.timestamp) + Ascii("}");
    assert Ascii("}") == [125];
    hide Entry, Ascii, Dec, NameOf, Key;
    Piece(e3, Dec(c.timestamp), [125], [], rest);
    var r3 := Dec(c.timestamp) + ([125] + rest);
    TimestampLiteral();
    Piece(e2, Dec(c.active), [COMMA], Key(Ascii("timestamp")), r3);
    var r2 := Dec(c.active) + ([COMMA] + FromTimestamp(c, rest));
    ActiveLiteral();
    Piece(e1, NameOf(c), [QUOTE], [COMMA] + Key(Ascii("active")), r2);
    Assoc([COMMA], Key(Ascii("active")), r2);
    var r1 := NameOf(c) + ([QUOTE] + ([COMMA] + FromActive(c, rest)));
    NameLiteral();
    Piece(e0, Dec(c.id), [COMMA], Key(Ascii("name")) + [QUOTE], r1);
    Assoc(Key(Ascii("name")), [QUOTE], r1);
    IdLiteral();
    Assoc([123], Key(Ascii("id")), Dec(c.id) + ([COMMA] + FromName(c, rest)));
  }

  /** A member whose value is a number. */
  lemma NumberMember(key: bytes, n: nat, next: bytes)
    requires Plain(key) && Delimited(next) && next[0] != 93
    ensures ReadMembers(Key(key) + (Dec(n) + next)) ==
            if next[0] == 125 then Some(([(key, Num(Dec(n)))], next[1..]))
            else After([(key, Num(Dec(n)))], ReadMembers(next[1..]))
  {
    hide ReadMember, ReadMembers, ReadValue, Dec, Key;
    NumberReads(n, next);
    assert (Dec(n) + next)[0] == Dec(n)[0];
    MemberReads(key, Dec(n) + next);
    MembersRead(Key(key) + (Dec(n) + next), (key, Num(Dec(n))), next);
  }

  function TailMembers(c: Card): seq<(bytes, Value)> {
    [(Ascii("active"), Num(Dec(c.active)))] + [(Ascii("timestamp"), Num(Dec(c.timestamp)))]
  }

  lemma TailReads(c: Card, rest: bytes)
    ensures ReadMembers(FromActive(c, rest)) == Some((TailMembers(c), rest))
  {
    ActiveLiteral();
    TimestampLiteral();
    hide ReadMembers, Ascii, Dec, Key, Plain;
    NumberMember(Ascii("timestamp"), c.timestamp, [125] + rest);
    assert ([125] + rest)[1..] == rest;
    var next := [COMMA] + FromTimestamp(c, rest);
    assert next[1..] == FromTimestamp(c, rest);
    NumberMember(Ascii("active"), c.active, next);
  }

  /** The name member, whatever string the reader makes of the name. */
  lemma NameMember(c: Card, rest: bytes)
    ensures var r := ReadString(NameOf(c) + [QUOTE] + ([COMMA] + FromActive(c, rest)));
            ReadMember(FromName(c, rest)) == Keyed(Ascii("name"), AsStr(r))
  {
    NameLiteral();
    hide Ascii, NameOf, Key, FromActive, ReadMember, ReadString, Plain;
    var next := [COMMA] + FromActive(c, rest);
    var value := [QUOTE] + (NameOf(c) + ([QUOTE] + next));
    MemberReads(Ascii("name"), value);
    Assoc(NameOf(c), [QUOTE], next);
    assert value[1..] == NameOf(c) + [QUOTE] + next;
  }

  function CardMembers(c: Card): seq<(bytes, Value)> {
    [(Ascii("id"), Num(Dec(c.id)))] + ([(Ascii("name"), Str(NameOf(c)))] + TailMembers(c))
  }

  lemma PlainCardReads(c: Card, rest: bytes)
    requires Plain(NameOf(c))
    ensures ReadMembers(FromName(c, rest)) == Some(([(Ascii("name"), Str(NameOf(c)))] + TailMembers(c), rest))
  {
    hide Ascii, NameOf, Key, FromActive, ReadMember, ReadMembers, ReadString, Plain, TailMembers;
    var next := [COMMA] + FromActive(c, rest);
    NameMember(c, rest);
    PlainReads(NameOf(c), next);
    MembersRead(FromName(c, rest), (Ascii("name"), Str(NameOf(c))), next);
    assert next[1..] == FromActive(c, rest);
    TailReads(c, rest);
  }

  lemma ActiveStarts(c: Card, rest: bytes, more: bytes)
    requires more == Ascii("active") + [QUOTE, COLON] + (Dec(c.active) + ([COMMA] + FromTimestamp(c, rest)))
    ensures [COMMA] + FromActive(c, rest) == [COMMA, QUOTE] + more
  {
    hide Ascii, Dec, FromTimestamp;
  }

  /** If the name is not plain, reading the members fails or gives another name. */
  lemma OddCardReads(c: Card, rest: bytes)
    requires !Plain(NameOf(c))
    ensures var r := ReadMembers(FromName(c, rest));
            r.Some? ==> r.value.0[0] != (Ascii("name"), Str(NameOf(c)))
  {
    NameMember(c, rest);
    hide Ascii, NameOf, Key, FromTimestamp, ReadMember, ReadString, Plain, ReadValue;
    var next := [COMMA] + FromActive(c, rest);
    var more := Ascii("active") + [QUOTE, COLON] + (Dec(c.active) + ([COMMA] + FromTimestamp(c, rest)));
    ActiveStarts(c, rest, more);
    SeparatorsPlain();
    UnescapedReads(NameOf(c), COMMA, more);
    MisreadTells(NameOf(c), ReadString(NameOf(c) + [QUOTE] + next));
  }

  lemma IdStarts(c: Card, rest: bytes)
    ensures FromId(c, rest)[0] == QUOTE
  {
  }

  /** One card of the list reads as its value exactly if its name is plain. */
  lemma CardReads(c: Card, rest: bytes)
    ensures Plain(NameOf(c)) ==> ReadValue(Entry(c) + rest) == Some((CardValue(c), rest))
    ensures !Plain(NameOf(c)) ==>
              var r := ReadValue(Entry(c) + rest); r.Some? ==> r.value.0 != CardValue(c)
  {
    IdLiteral();
    EntryText(c, rest);
    hide Ascii, Dec, NameOf, Key, FromName, Entry, ReadMembers, ReadValue, Plain;
    IdStarts(c, rest);
    ObjectReads(FromId(c, rest));
    var next := [COMMA] + FromName(c, rest);
    assert next[1..] == FromName(c, rest);
    NumberMember(Ascii("id"), c.id, next);
    if Plain(NameOf(c)) {
      PlainCardReads(c, rest);
      assert CardMembers(c) == CardValue(c).members;
    } else {
      OddCardReads(c, rest);
      assert CardValue(c).members[1] == (Ascii("name"), Str(NameOf(c)));
    }
  }

  ghost predicate AllPlain(cards: seq<Card>) {
    forall c :: c in cards ==> Plain(NameOf(c))
  }

  lemma ValuesUnfold(cards: seq<Card>)
    requires cards != []
    ensures CardValues(cards) == [CardValue(cards[0])] + CardValues(cards[1..])
    ensures |cards| == 1 ==> CardValues(cards) == [CardValue(cards[0])]
  {
    hide CardValue;
  }

  lemma JoinedText(cards: seq<Card>, rest: bytes, next: bytes)
    requires cards != []
    requires next == if |cards| == 1 then [93] + rest else [COMMA] + (Joined(cards[1..]) + ([93] + rest))
    ensures Joined(cards) + ([93] + rest) == Entry(cards[0]) + next
  {
    hide Entry;
    if |cards| > 1 {
      assert Joined(cards) == Entry(cards[0]) + [COMMA] + Joined(cards[1..]);
    }
  }

  /** The elements read back exactly if all names are plain. */
  lemma {:induction false} CardsRead(cards: seq<Card>, rest: bytes)
    requires cards != []
    ensures AllPlain(cards) ==> ReadElements(Joined(cards) + ([93] + rest)) == Some((CardValues(cards), rest))
    ensures var r := ReadElements(Joined(cards) + ([93] + rest));
            r.Some? && r.value.0 == CardValues(cards) ==> AllPlain(cards)
    decreases |cards|
  {
    hide Entry, Joined, CardValue, CardValues, ReadElements, ReadValue, Plain, NameOf;
    var c, more := cards[0], cards[1..];
    var text := Joined(cards) + ([93] + rest);
    var next := if |cards| == 1 then [93] + rest else [COMMA] + (Joined(more) + ([93] + rest));
    JoinedText(cards, rest, next);
    CardReads(c, next);
    ValuesUnfold(cards);
    assert cards == [c] + more;
    assert AllPlain(cards) <==> Plain(NameOf(c)) && AllPlain(more);
    if ReadElements(text).Some? {
      FirstElement(text);
    }
    if Plain(NameOf(c)) {
      ElementsRead(text, CardValue(c), next);
      if |cards| == 1 {
        assert next[1..] == rest && more == [];
      } else {
        assert next[1..] == Joined(more) + ([93] + rest);
        CardsRead(more, rest);
        Appended([CardValue(c)], ReadElements(Joined(more) + ([93] + rest)), CardValues(more), rest);
      }
    }
  }

  // ---- The whole text ----

  function FromCards(cards: seq<Card>): bytes {
    Key(Ascii("cards")) + ([91] + (Joined(cards) + ([93] + [125])))
  }

  function FromCount(count: nat, cards: seq<Card>): bytes {
    Key(Ascii("count")) + (Dec(count) + ([COMMA] + FromCards(cards)))
  }

  function FromStatus(count: nat, cards: seq<Card>): bytes {
    Key(Ascii("status")) + ([QUOTE] + Ascii("ok") + [QUOTE] + ([COMMA] + FromCount(count, cards)))
  }

  lemma StatusLiteral()
    ensures Ascii("{\"status\":\"ok\",\"count\":") == Ascii("{\"status\":\"ok\"") + Ascii(",\"count\":")
    ensures Plain(Ascii("status")) && Plain(Ascii("ok"))
  {
  }

  lemma StatusHead()
    ensures Ascii("{\"status\":\"ok\"") == [123] + Key(Ascii("status")) + ([QUOTE] + Ascii("ok") + [QUOTE])
  {
  }

  lemma CountLiteral()
    ensures Ascii(",\"count\":") == [COMMA] + Key(Ascii("count")) && Plain(Ascii("count"))
  {
  }

  lemma CardsLiteral()
    ensures Ascii(",\"cards\":[") == [COMMA] + Key(Ascii("cards")) + [91] && Plain(Ascii("cards"))
    ensures Ascii("]}") == [93] + [125]
  {
  }

  lemma CloseText(x: bytes, key: bytes, joined: bytes)
    ensures x + key + joined + ([93] + [125]) == x + (key + (joined + ([93] + [125])))
  {
  }

  lemma OpenCards(key: bytes, close: bytes)
    ensures [COMMA] + key + [91] + close == [COMMA] + (key + ([91] + close))
  {
  }

  lemma Piece2(head: bytes, comma: bytes, key: bytes, n: bytes, rest: bytes)
    ensures head + (comma + key) + n + rest == head + (comma + (key + (n + rest)))
  {
  }

  lemma StatusText(open: bytes, key: bytes, ok: bytes, rest: bytes)
    ensures open + key + ok + rest == open + (key + (ok + rest))
  {
  }

  lemma WholeText(count: nat, cards: seq<Card>)
    ensures ListText(count, cards) == [123] + FromStatus(count, cards)
  {
    StatusLiteral();
    StatusHead();
    CountLiteral();
    CardsLiteral();
    hide Ascii, Dec, Joined, Key;
    var head := [123] + Key(Ascii("status")) + ([QUOTE] + Ascii("ok") + [QUOTE]);
    var close := Joined(cards) + ([93] + [125]);
    assert ListText(count, cards) == head + ([COMMA] + Key(Ascii("count"))) + Dec(count)
                                     + ([COMMA] + Key(Ascii("cards")) + [91]) + Joined(cards) + ([93] + [125]);
    CloseText(head + ([COMMA] + Key(Ascii("count"))) + Dec(count), [COMMA] + Key(Ascii("cards")) + [91], Joined(cards));
    OpenCards(Key(Ascii("cards")), close);
    var fromCards := FromCards(cards);
    Piece2(head, [COMMA], Key(Ascii("count")), Dec(count), [COMMA] + fromCards);
    StatusText([123], Key(Ascii("status")), [QUOTE] + Ascii("ok") + [QUOTE], [COMMA] + FromCount(count, cards));
  }

  lemma EntryStarts(c: Card)
    ensures Entry(c) != [] && Entry(c)[0] == 123
  {
    EntryText(c, []);
    assert (Entry(c) + [])[0] == Entry(c)[0];
  }

  lemma CardsMember(cards: seq<Card>)
    ensures ReadMember(FromCards(cards)) ==
            Keyed(Ascii("cards"), if cards == [] then Some((Arr([]), [125]))
                                  else AsArr(ReadElements(Joined(cards) + ([93] + [125]))))
  {
    CardsLiteral();
    hide Ascii, Entry, Key, ReadElements, ReadMember, Plain;
    var text := Joined(cards) + ([93] + [125]);
    MemberReads(Ascii("cards"), [91] + text);
    if cards == [] {
      assert text == [93, 125];
      assert ([91] + text)[1..] == text;
      assert text[1..] == [125];
    } else {
      EntryStarts(cards[0]);
      var next := if |cards| == 1 then [93] + [125] else [COMMA] + (Joined(cards[1..]) + ([93] + [125]));
      JoinedText(cards, [125], next);
      assert text[0] == Entry(cards[0])[0];
      ArrayReads(text);
    }
  }

  lemma StatusStarts(count: nat, cards: seq<Card>)
    ensures FromStatus(count, cards)[0] == QUOTE
  {
  }

  /** The value of the whole text, given what the card array reads as. */
  lemma HeadReads(count: nat, cards: seq<Card>)
    ensures ReadValue(ListText(count, cards)) ==
            AsObj(After([(Ascii("status"), Str(Ascii("ok")))],
                        After([(Ascii("count"), Num(Dec(count)))], ReadMembers(FromCards(cards)))))
  {
    WholeText(count, cards);
    StatusLiteral();
    CountLiteral();
    hide Ascii, Dec, Key, FromCards, ReadMember, ReadMembers, ReadValue, Plain, ListText;
    var next := [COMMA] + FromCards(cards);
    assert next[1..] == FromCards(cards);
    NumberMember(Ascii("count"), count, next);
    var after := [COMMA] + FromCount(count, cards);
    assert after[1..] == FromCount(count, cards);
    StringReads(Ascii("ok"), after);
    MemberReads(Ascii("status"), [QUOTE] + Ascii("ok") + [QUOTE] + after);
    MembersRead(FromStatus(count, cards), (Ascii("status"), Str(Ascii("ok"))), after);
    StatusStarts(count, cards);
    ObjectReads(FromStatus(count, cards));
  }

  lemma AsciiIsAscii(s: string)
    requires forall i :: 0 <= i < |s| ==> s[i] as int < 0x80
    ensures IsAscii(Ascii(s))
  {
  }

  lemma DecIsAscii(n: nat)
    ensures IsAscii(Dec(n))
  {
  }

  lemma JoinAscii(a: bytes, b: bytes)
    requires IsAscii(a) && IsAscii(b)
    ensures IsAscii(a + b)
  {
  }

  /** What an entry prints before the name, and after it. */
  function BeforeName(c: Card): bytes {
    Ascii("{\"id\":") + Dec(c.id) + Ascii(",\"name\":\"")
  }

  function AfterName(c: Card): bytes {
    Ascii("\",\"active\":") + Dec(c.active) + Ascii(",\"timestamp\":") + Dec(c.timestamp) + Ascii("}")
  }

  lemma AroundName(c: Card)
    ensures IsAscii(BeforeName(c)) && IsAscii(AfterName(c)) && AfterName(c) != []
  {
    hide Ascii, Dec, IsAscii;
    AsciiIsAscii("{\"id\":");
    AsciiIsAscii(",\"name\":\"");
    AsciiIsAscii("\",\"active\":");
    AsciiIsAscii(",\"timestamp\":");
    AsciiIsAscii("}");
    DecIsAscii(c.id);
    DecIsAscii(c.active);
    DecIsAscii(c.timestamp);
    JoinAscii(Ascii("{\"id\":"), Dec(c.id));
    JoinAscii(Ascii("{\"id\":") + Dec(c.id), Ascii(",\"name\":\""));
    var active := Ascii("\",\"active\":") + Dec(c.active);
    JoinAscii(Ascii("\",\"active\":"), Dec(c.active));
    JoinAscii(active, Ascii(",\"timestamp\":"));
    JoinAscii(active + Ascii(",\"timestamp\":"), Dec(c.timestamp));
    JoinAscii(active + Ascii(",\"timestamp\":") + Dec(c.timestamp), Ascii("}"));
    assert |Ascii("}")| == 1;
  }

  lemma EntryParts(c: Card, rest: bytes)
    ensures Entry(c) + rest == BeforeName(c) + (NameOf(c) + (AfterName(c) + rest))
  {
    hide Ascii, Dec, NameOf;
  }

  lemma EntryUtf8(c: Card, rest: bytes)
    ensures IsUtf8(Entry(c) + rest) <==> IsUtf8(NameOf(c)) && IsUtf8(rest)
  {
    hide Entry, BeforeName, AfterName, NameOf, IsUtf8;
    AroundName(c);
    EntryParts(c, rest);
    Utf8After(BeforeName(c), NameOf(c) + (AfterName(c) + rest));
    Utf8Before(NameOf(c), AfterName(c) + rest);
    Utf8After(AfterName(c), rest);
  }

  ghost predicate AllUtf8(cards: seq<Card>) {
    forall c :: c in cards ==> IsUtf8(NameOf(c))
  }

  lemma {:induction false} JoinedUtf8(cards: seq<Card>, rest: bytes)
    requires IsUtf8(rest)
    ensures IsUtf8(Joined(cards) + rest) <==> AllUtf8(cards)
    decreases |cards|
  {
    hide Entry, NameOf, IsUtf8;
    if cards == [] {
      assert Joined(cards) + rest == rest;
    } else {
      var more := cards[1..];
      assert cards == [cards[0]] + more;
      if more == [] {
        EntryUtf8(cards[0], rest);
      } else {
        var next := Joined(more) + rest;
        assert Joined(cards) + rest == Entry(cards[0]) + ([COMMA] + next);
        EntryUtf8(cards[0], [COMMA] + next);
        Utf8After([COMMA], next);
        JoinedUtf8(more, rest);
      }
    }
  }

  lemma NothingUtf8()
    ensures IsUtf8([])
  {
  }

  lemma ListUtf8(count: nat, cards: seq<Card>)
    ensures IsUtf8(ListText(count, cards)) <==> AllUtf8(cards)
  {
    hide Joined, Ascii, Dec, IsUtf8, IsAscii, AllUtf8;
    var close := Ascii("]}");
    AsciiIsAscii("]}");
    AsciiIsAscii("{\"status\":\"ok\",\"count\":");
    AsciiIsAscii(",\"cards\":[");
    DecIsAscii(count);
    JoinAscii(Ascii("{\"status\":\"ok\",\"count\":"), Dec(count));
    JoinAscii(Ascii("{\"status\":\"ok\",\"count\":") + Dec(count), Ascii(",\"cards\":["));
    assert ListText(count, cards) == Prefix(count) + (Joined(cards) + close);
    Utf8After(Prefix(count), Joined(cards) + close);
    NothingUtf8();
    assert close + [] == close;
    Utf8After(close, []);
    JoinedUtf8(cards, close);
  }

  /** Names are cut after 31 bytes: what is stored is UTF-8 exactly if that is not inside a character. */
  lemma StoredNameUtf8(name: CString)
    requires IsUtf8(name)
    ensures IsUtf8(UpToNul(NameField(name))) <==> |name| < NAME_SIZE || !Continues(name[NAME_SIZE - 1])
  {
    hide IsUtf8, NameField, UpToNul;
    if |name| < NAME_SIZE {
      assert name[..|name|] == name;
    } else {
      Utf8Take(name, NAME_SIZE - 1);
    }
  }

  /** And it may be: this name is UTF-8, what is stored is not. */
  lemma CutName()
    ensures var name: CString := seq(30, _ => 65) + [0xC3, 0xA9];
            IsUtf8(name) && !IsUtf8(UpToNul(NameField(name)))
  {
    var letters: bytes := seq(30, _ => 65);
    var name: CString := letters + [0xC3, 0xA9];
    assert name[..31] == letters + [0xC3];
    Utf8After(letters, [0xC3, 0xA9]);
    Utf8After(letters, [0xC3]);
    assert [0xC3, 0xA9][2..] == [];
  }

  /** Apart from the encoding. */
  lemma PlainListReads(count: nat, cards: seq<Card>)
    ensures ReadValue(ListText(count, cards)) == Some((ListValue(count, cards), [])) <==> AllPlain(cards)
    ensures var r := ReadValue(ListText(count, cards));
            r.Some? && r.value.0 == ListValue(count, cards) ==> AllPlain(cards)
  {
    HeadReads(count, cards);
    CardsMember(cards);
    hide Ascii, Dec, Key, Joined, ReadMember, ReadMembers, ReadValue, ReadElements, Plain, ListText, CardValue, NameOf;
    if cards != [] {
      CardsRead(cards, [125]);
    }
    var m := (Ascii("cards"), Arr(CardValues(cards)));
    if AllPlain(cards) {
      assert [125] == [125] + [];
      LastMember(FromCards(cards), m, []);
      assert [(Ascii("status"), Str(Ascii("ok")))] + ([(Ascii("count"), Num(Dec(count)))] + [m])
             == ListValue(count, cards).members;
    } else if ReadMembers(FromCards(cards)).Some? {
      FirstMember(FromCards(cards));
      assert ListValue(count, cards).members[2] == m;
    }
  }

  /**
   The printed list is a JSON text for exactly the cards it was printed from if
   and only if every name is UTF-8 without a quotation mark, a backslash or a
   control character: names are printed as they are.
   */
  lemma ListReadsBack(count: nat, cards: seq<Card>)
    ensures Read(ListText(count, cards)) == Some(ListValue(count, cards)) <==> AllPlain(cards) && AllUtf8(cards)
  {
    ListUtf8(count, cards);
    PlainListReads(count, cards);
  }

  /** What a reader of the list learns of a card. */
  function Shown(c: Card): (u32, CString, byte, u32) {
    (c.id, NameOf(c), c.active, c.timestamp)
  }

  lemma CardValueTells(c: Card, d: Card)
    requires CardValue(c) == CardValue(d)
    ensures Shown(c) == Shown(d)
  {
    hide Ascii, Dec, NameOf;
    var ms, ns := CardValue(c).members, CardValue(d).members;
    assert ms[0].1 == ns[0].1 && ms[1].1 == ns[1].1 && ms[2].1 == ns[2].1 && ms[3].1 == ns[3].1;
    UndecDec(c.id);
    UndecDec(d.id);
    UndecDec(c.active);
    UndecDec(d.active);
    UndecDec(c.timestamp);
    UndecDec(d.timestamp);
  }

  lemma {:induction false} ValuesTell(cards: seq<Card>, others: seq<Card>)
    requires CardValues(cards) == CardValues(others)
    ensures |cards| == |others| && forall i :: 0 <= i < |cards| ==> Shown(cards[i]) == Shown(others[i])
  {
    hide CardValue, Shown;
    assert |cards| == |others|;
    if cards == [] {
    } else {
      assert CardValues(cards)[0] == CardValues(others)[0];
      assert CardValues(cards)[1..] == CardValues(cards[1..]);
      assert CardValues(others)[1..] == CardValues(others[1..]);
      CardValueTells(cards[0], others[0]);
      ValuesTell(cards[1..], others[1..]);
      assert forall i :: 0 < i < |cards| ==> cards[i] == cards[1..][i - 1] && others[i] == others[1..][i - 1];
    }
  }

  /** The value tells the count and every id, name, active flag and timestamp. */
  lemma {:induction false} ValueTells(n: nat, cards: seq<Card>, m: nat, others: seq<Card>)
    requires ListValue(n, cards) == ListValue(m, others)
    ensures n == m && |cards| == |others|
    ensures forall i :: 0 <= i < |cards| ==> Shown(cards[i]) == Shown(others[i])
  {
    hide Ascii, Dec, CardValue;
    assert ListValue(n, cards).members[1].1 == ListValue(m, others).members[1].1;
    assert ListValue(n, cards).members[2].1 == ListValue(m, others).members[2].1;
    UndecDec(n);
    UndecDec(m);
    ValuesTell(cards, others);
  }

  /** A card as its four members in order, spelled out. */
  predicate ShowsCard(v: Value, c: Card) {
    && v.Obj? && |v.members| == 4
    && v.members[0] == (Ascii("id"), Num(Dec(c.id)))
    && v.members[1] == (Ascii("name"), Str(UpToNul(c.name)))
    && v.members[2] == (Ascii("active"), Num(Dec(c.active)))
    && v.members[3] == (Ascii("timestamp"), Num(Dec(c.timestamp)))
  }

  predicate ShowsList(v: Value, count: nat, cards: seq<Card>) {
    && v.Obj? && |v.members| == 3
    && v.members[0] == (Ascii("status"), Str(Ascii("ok")))
    && v.members[1] == (Ascii("count"), Num(Dec(count)))
    && v.members[2].0 == Ascii("cards") && v.members[2].1.Arr?
    && var elems := v.members[2].1.elems;
       |elems| == |cards| && forall i :: 0 <= i < |cards| ==> ShowsCard(elems[i], cards[i])
  }

  lemma CardIsShown(v: Value, c: Card)
    ensures ShowsCard(v, c) <==> v == CardValue(c)
  {
    hide Ascii, Dec, UpToNul;
    if ShowsCard(v, c) {
      assert v.members == CardValue(c).members;
    }
  }

  lemma {:induction false} CardValuesAt(cards: seq<Card>, i: nat)
    requires i < |cards|
    ensures CardValues(cards)[i] == CardValue(cards[i])
  {
    hide CardValue;
    if i == 0 {
    } else {
      CardValuesAt(cards[1..], i - 1);
    }
  }

  lemma CardsAreShown(vs: seq<Value>, cards: seq<Card>)
    requires |vs| == |cards|
    ensures (forall i :: 0 <= i < |cards| ==> ShowsCard(vs[i], cards[i])) <==> vs == CardValues(cards)
  {
    hide ShowsCard, CardValue, CardValues;
    forall i | 0 <= i < |cards|
      ensures ShowsCard(vs[i], cards[i]) <==> vs[i] == CardValues(cards)[i]
    {
      CardIsShown(vs[i], cards[i]);
      CardValuesAt(cards, i);
    }
  }

  lemma ListIsShown(v: Value, count: nat, cards: seq<Card>)
    ensures ShowsList(v, count, cards) <==> v == ListValue(count, cards)
  {
    hide Ascii, Dec, ShowsCard, CardValues;
    if v.Obj? && |v.members| == 3 && v.members[2].1.Arr? && |v.members[2].1.elems| == |cards| {
      CardsAreShown(v.members[2].1.elems, cards);
      if ShowsList(v, count, cards) {
        assert v.members[2] == ListValue(count, cards).members[2];
        assert v.members == ListValue(count, cards).members;
      }
    }
  }
}
