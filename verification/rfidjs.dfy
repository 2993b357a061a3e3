/** Card ids as the web page prints, reads and searches them. */
module RfidJs {
  import opened Base
  import opened Numerals

  const ADMIN_CARD_ID := 305419896
  const ADMIN_CARD_HEX := "0x12345678"

  datatype Card = Card(id: u32, name: string)
  datatype SearchType = ById | ByName

  // ---- Strings ----

  function LowerChar(c: char): char {
    if 'A' <= c <= 'Z' then c + ' ' else c
  }

  function ToLower(s: string): (r: string)
    ensures |r| == |s|
  {
    seq(|s|, i requires 0 <= i < |s| => LowerChar(s[i]))
  }

  function UpperChar(c: char): char {
    if 'a' <= c <= 'z' then c - ' ' else c
  }

  function ToUpper(s: string): (r: string)
    ensures |r| == |s|
  {
    seq(|s|, i requires 0 <= i < |s| => UpperChar(s[i]))
  }

  predicate IsSpace(c: char) {
    c == ' ' || 9 as char <= c <= 13 as char
  }

  function Trim(s: string): string {
    if s == [] then s
    else if IsSpace(s[0]) then Trim(s[1..])
    else if IsSpace(s[|s| - 1]) then Trim(s[..|s| - 1])
    else s
  }

  function PadStart(s: string, width: nat, c: char): string {
    if |s| >= width then s else seq(width - |s|, _ => c) + s
  }

  predicate StandsAt(s: string, part: string, i: nat)
    requires i + |part| <= |s|
  {
    s[i..i + |part|] == part
  }

  /** `part` stands somewhere in `s`. */
  predicate Includes(s: string, part: string) {
    exists i :: 0 <= i <= |s| - |part| && StandsAt(s, part, i)
  }

  // ---- Numbers ----

  function DigitChar(d: nat): char
    requires d < 16
  {
    "0123456789abcdef"[d]
  }

  function DigitOf(c: char): Option<nat> {
    if '0' <= c <= '9' then Some((c - '0') as nat)
    else if 'a' <= c <= 'z' then Some((c - 'a') as nat + 10)
    else if 'A' <= c <= 'Z' then Some((c - 'A') as nat + 10)
    else None
  }

  predicate IsDigitOf(c: char, base: Radix) {
    DigitOf(c).Some? && DigitOf(c).value < base
  }

  /** The values of the digits `s` starts with. */
  function DigitRun(s: string, base: Radix): (ds: seq<nat>)
    ensures |ds| <= |s|
  {
    if s == [] || !IsDigitOf(s[0], base) then [] else [DigitOf(s[0]).value] + DigitRun(s[1..], base)
  }

  /** parseInt on a string without leading white space; none is NaN. */
  function ParseInt(s: string, base: Radix): Option<int> {
    var negative := s != [] && s[0] == '-';
    var body := if s != [] && s[0] in "+-" then s[1..] else s;
    var digits := if base == 16 && |body| >= 2 && body[0] == '0' && body[1] in "xX" then body[2..] else body;
    var run := DigitRun(digits, base);
    if run == [] then None else Some(Value(run, base) * if negative then -1 else 1)
  }

  function Chars(ds: seq<nat>): (r: string)
    requires forall i :: 0 <= i < |ds| ==> ds[i] < 16
    ensures |r| == |ds|
  {
    seq(|ds|, i requires 0 <= i < |ds| => DigitChar(ds[i]))
  }

  /** toString(16) and toString(10). */
  function ToText(n: nat, base: Radix): (r: string)
    ensures |r| == |Digits(n, base)|
  {
    Chars(Digits(n, base))
  }

  // ---- rfid.js ----

  /** The first line formatCardId prints. */
  function HexForm(id: u32): string {
    "0x" + PadStart(ToUpper(ToText(id, 16)), 8, '0')
  }

  /** The second. */
  function DecForm(id: u32): string {
    ToText(id, 10)
  }

  predicate HexOnly(s: string) {
    forall i :: 0 <= i < |s| ==> IsDigitOf(s[i], 16)
  }

  predicate HasLetter(s: string) {
    exists i :: 0 <= i < |s| && ('a' <= s[i] <= 'f' || 'A' <= s[i] <= 'F')
  }

  function Normalized(input: string): string {
    ToLower(Trim(input))
  }

  /** parseCardId on what trim and toLowerCase leave. */
  function ParseText(trimmed: string): Option<int> {
    if "0x" <= trimmed then ParseInt(trimmed, 16)
    else if HexOnly(trimmed) && 1 <= |trimmed| <= 8 then
      var hexValue, decValue := ParseInt(trimmed, 16), ParseInt(trimmed, 10);
      if HasLetter(trimmed)
         || (hexValue.Some? && hexValue.value <= 0xFFFF_FFFF && decValue.Some? && decValue.value > 0xFFFF_FFFF)
      then hexValue
      else decValue
    else ParseInt(trimmed, 10)
  }

  function ParseCardId(input: string): Option<int> {
    ParseText(Normalized(input))
  }

  /** isAdminCard, likewise. */
  predicate IsAdminText(trimmed: string) {
    || ParseText(trimmed) == Some(ADMIN_CARD_ID)
    || trimmed == ADMIN_CARD_HEX
    || trimmed == "12345678"
  }

  predicate IsAdminCard(input: string) {
    IsAdminText(Normalized(input))
  }

  predicate Matches(card: Card, query: string, kind: SearchType) {
    var lowerQuery := ToLower(query);
    if kind.ById? then
      || ParseCardId(query) == Some(card.id as int)
      || Includes(ToText(card.id, 10), lowerQuery)
      || Includes(ToText(card.id, 16), lowerQuery)
      || Includes("0x" + ToText(card.id, 16), lowerQuery)
    else Includes(ToLower(card.name), lowerQuery)
  }

  function Matching(cards: seq<Card>, query: string, kind: SearchType): seq<Card> {
    if cards == [] then []
    else (if Matches(cards[0], query, kind) then [cards[0]] else []) + Matching(cards[1..], query, kind)
  }

  function FilterCards(cards: seq<Card>, query: string, kind: SearchType): seq<Card> {
    if query == [] then cards else Matching(cards, query, kind)
  }

  /** The cards with this id, in order. */
  function WithId(cards: seq<Card>, id: u32): seq<Card> {
    if cards == [] then []
    else (if cards[0].id == id then [cards[0]] else []) + WithId(cards[1..], id)
  }

  // ---- Reading what was printed ----

  lemma DigitFacts(d: nat)
    requires d < 16
    ensures var c := DigitChar(d);
            && DigitOf(c) == Some(d) && c != 'x' && c != 'X' && c != '-' && c != '+'
            && LowerChar(c) == LowerChar(UpperChar(c)) == c && !IsSpace(c) && !IsSpace(UpperChar(c))
            && ('a' <= c <= 'f' || 'A' <= c <= 'F' <==> d >= 10)
  {
  }

  lemma CharsFacts(ds: seq<nat>)
    requires forall i :: 0 <= i < |ds| ==> ds[i] < 16
    ensures forall i :: 0 <= i < |ds| ==>
              var c := Chars(ds)[i];
              && DigitOf(c) == Some(ds[i]) && c != 'x' && c != 'X' && c != '-' && c != '+'
              && LowerChar(c) == LowerChar(UpperChar(c)) == c && !IsSpace(c) && !IsSpace(UpperChar(c))
              && ('a' <= c <= 'f' || 'A' <= c <= 'F' <==> ds[i] >= 10)
  {
    hide DigitChar, DigitOf, LowerChar, UpperChar, IsSpace;
    forall i | 0 <= i < |ds| ensures Chars(ds)[i] == DigitChar(ds[i]) {
    }
    forall d: nat | d < 16 {
      DigitFacts(d);
    }
  }

  lemma {:induction false} RunOfChars(ds: seq<nat>, base: Radix)
    requires forall i :: 0 <= i < |ds| ==> ds[i] < base
    ensures DigitRun(Chars(ds), base) == ds
  {
    if ds == [] {
    } else {
      hide DigitChar, DigitOf;
      var s := Chars(ds);
      CharsFacts(ds);
      assert s[1..] == Chars(ds[1..]);
      RunOfChars(ds[1..], base);
      assert ds == [ds[0]] + ds[1..];
    }
  }

  lemma ParseDigits(ds: seq<nat>, base: Radix)
    requires ds != [] && forall i :: 0 <= i < |ds| ==> ds[i] < base
    ensures ParseInt(Chars(ds), base) == Some(Value(ds, base))
  {
    hide Value, DigitRun, DigitChar, DigitOf;
    CharsFacts(ds);
    RunOfChars(ds, base);
  }

  lemma {:induction false} LeadingZeros(k: nat, ds: seq<nat>, base: Radix)
    ensures Value(seq(k, _ => 0) + ds, base) == Value(ds, base)
    decreases |ds|, k
  {
    var zeros := seq(k, _ => 0);
    if ds != [] {
      assert (zeros + ds)[..k + |ds| - 1] == zeros + ds[..|ds| - 1];
      LeadingZeros(k, ds[..|ds| - 1], base);
    } else if k > 0 {
      assert (zeros + ds)[..k - 1] == seq(k - 1, _ => 0) + ds;
      LeadingZeros(k - 1, ds, base);
    }
  }

  /** The eight digits of the hexadecimal form. */
  function Padded(id: u32): (ds: seq<nat>)
    ensures forall i :: 0 <= i < |ds| ==> ds[i] < 16
    ensures Value(ds, 16) == id && |ds| == 8
  {
    var ds := Digits(id, 16);
    Powers();
    DigitsBound(id, 16, 8);
    ValueOfDigits(id, 16);
    LeadingZeros(8 - |ds|, ds, 16);
    seq(8 - |ds|, _ => 0) + ds
  }

  lemma ZeroChar()
    ensures DigitChar(0) == UpperChar('0') == '0' && LowerChar('x') == 'x'
  {
  }

  lemma PaddedDigits(id: u32)
    ensures var ds, p := Digits(id, 16), Padded(id);
            |ds| <= 8 && p == seq(8 - |ds|, _ => 0) + ds
  {
    Powers();
    DigitsBound(id, 16, 8);
  }

  /** PadStart and ToUpper only change what ToLower and the padding undo. */
  lemma HexFormText(id: u32)
    ensures var hex := HexForm(id);
            && ToLower(hex) == "0x" + Chars(Padded(id))
            && Trim(hex) == hex && Normalized(hex) == ToLower(hex)
  {
    hide Digits, Padded, DigitChar, LowerChar, UpperChar, IsSpace;
    var ds, text, hex := Digits(id, 16), ToText(id, 16), HexForm(id);
    CharsFacts(ds);
    DigitFacts(0);
    CharsFacts(Padded(id));
    PaddedDigits(id);
    assert DigitChar(0) == '0' && UpperChar('0') == '0' by { ZeroChar(); }
    assert LowerChar('x') == 'x' by { ZeroChar(); }
    var k := 8 - |ds|;
    forall i | 0 <= i < |hex| ensures ToLower(hex)[i] == ("0x" + Chars(Padded(id)))[i] {
      assert hex[i] == if i < 2 then "0x"[i] else if i < 2 + k then '0' else UpperChar(text[i - 2 - k]);
    }
  }

  /** Every id is read back from the form with the prefix. */
  lemma HexFormParses(id: u32)
    ensures ParseCardId(HexForm(id)) == Some(id as int)
  {
    hide Normalized, HexForm, Padded, Value, DigitRun, Trim, ToLower, Chars;
    HexFormText(id);
    var ds := Padded(id);
    var text := "0x" + Chars(ds);
    RunOfChars(ds, 16);
    assert text[2..] == Chars(ds);
  }

  lemma CharsNormalized(ds: seq<nat>)
    requires ds != [] && forall i :: 0 <= i < |ds| ==> ds[i] < 16
    ensures Normalized(Chars(ds)) == Chars(ds) && HexOnly(Chars(ds))
    ensures HasLetter(Chars(ds)) <==> exists i :: 0 <= i < |ds| && ds[i] >= 10
  {
    hide DigitChar, DigitOf, LowerChar, UpperChar, IsSpace;
    var s := Chars(ds);
    CharsFacts(ds);
    assert ToLower(s) == s;
    assert Trim(s) == s;
  }

  lemma NoPrefix(ds: seq<nat>)
    requires ds != [] && forall i :: 0 <= i < |ds| ==> ds[i] < 16
    ensures !("0x" <= Chars(ds))
  {
    hide DigitChar, DigitOf, LowerChar, UpperChar, IsSpace;
    CharsFacts(ds);
    assert |ds| > 1 ==> Chars(ds)[1] != 'x';
    assert "0x"[1] == 'x';
  }

  lemma {:induction false} ValueBound(ds: seq<nat>, base: Radix)
    requires forall i :: 0 <= i < |ds| ==> ds[i] < base
    ensures Value(ds, base) < Pow(base, |ds|)
    decreases |ds|
  {
    if ds == [] {
    } else {
      var n, p := Value(ds[..|ds| - 1], base), Pow(base, |ds| - 1);
      ValueBound(ds[..|ds| - 1], base);
      if base == 10 {
        assert (n + 1) * 10 <= p * 10;
      } else {
        assert (n + 1) * 16 <= p * 16;
      }
    }
  }

  lemma {:induction false} PowGrows(base: Radix, k: nat, m: nat)
    requires k <= m
    ensures Pow(base, k) <= Pow(base, m)
    decreases m
  {
    if k == m {
    } else {
      PowGrows(base, k, m - 1);
      PowPositive(base, m - 1);
    }
  }

  /**
   Digits without a prefix: read as hexadecimal exactly if they are at most eight
   and one is a letter, and otherwise as decimal.
   */
  lemma BareDigitsParse(ds: seq<nat>)
    requires 1 <= |ds| <= 8 && forall i :: 0 <= i < |ds| ==> ds[i] < 16
    ensures (exists i :: 0 <= i < |ds| && ds[i] >= 10) ==> ParseCardId(Chars(ds)) == Some(Value(ds, 16))
    ensures (forall i :: 0 <= i < |ds| ==> ds[i] < 10) ==> ParseCardId(Chars(ds)) == Some(Value(ds, 10))
  {
    hide Normalized, Value, HexOnly, HasLetter, ParseInt;
    CharsNormalized(ds);
    NoPrefix(ds);
    ParseDigits(ds, 16);
    if forall i :: 0 <= i < |ds| ==> ds[i] < 10 {
      ParseDigits(ds, 10);
      ValueBound(ds, 10);
      Powers();
      PowGrows(10, |ds|, 8);
    }
  }

  /** Every id is read back from the decimal form. */
  lemma DecFormParses(id: u32)
    ensures ParseCardId(DecForm(id)) == Some(id as int)
  {
    hide Normalized, Value, HexOnly, HasLetter, ParseInt, Digits;
    var ds := Digits(id, 10);
    ValueOfDigits(id, 10);
    assert DecForm(id) == Chars(ds);
    CharsNormalized(ds);
    NoPrefix(ds);
    ParseDigits(ds, 10);
    if |ds| <= 8 {
      BareDigitsParse(ds);
    }
  }

  // ---- Searching ----

  lemma NoXInDigits(n: nat, base: Radix, q: string)
    requires |q| > 1 && q[1] == 'x'
    ensures !Includes(ToText(n, base), q)
  {
    hide Digits, DigitChar, DigitOf, LowerChar, UpperChar, IsSpace;
    var s := ToText(n, base);
    CharsFacts(Digits(n, base));
    forall i: nat | i <= |s| - |q| ensures !StandsAt(s, q, i) {
      assert s[i..i + |q|][1] == s[i + 1] != 'x';
    }
  }

  lemma WholePrefixed(n: u32, id: u32)
    requires Includes("0x" + ToText(n, 16), "0x" + Chars(Padded(id)))
    ensures n == id
  {
    hide Digits, Padded;
    Powers();
    DigitsBound(n, 16, 8);
    ValueOfDigits(n, 16);
    var s, q := "0x" + ToText(n, 16), "0x" + Chars(Padded(id));
    var i :| 0 <= i <= |s| - |q| && StandsAt(s, q, i);
    assert i == 0 && |s| == |q| && s == q;
    assert Chars(Digits(n, 16)) == s[2..] == q[2..] == Chars(Padded(id));
    RunOfChars(Digits(n, 16), 16);
    RunOfChars(Padded(id), 16);
  }

  /** Only the padded digits of a card's own id stand in its prefixed form. */
  lemma HexQueryMatches(card: Card, id: u32)
    ensures Matches(card, HexForm(id), ById) <==> card.id == id
  {
    hide Digits, Value, ParseCardId, Includes, ToText, HexForm;
    HexFormParses(id);
    HexFormText(id);
    var q := ToLower(HexForm(id));
    var dec, hex := ToText(card.id, 10), ToText(card.id, 16);
    NoXInDigits(card.id, 10, q);
    NoXInDigits(card.id, 16, q);
    if Includes("0x" + hex, q) {
      WholePrefixed(card.id, id);
    }
  }

  lemma {:induction false} MatchingHolds(cards: seq<Card>, query: string, kind: SearchType, c: Card)
    ensures c in Matching(cards, query, kind) <==> c in cards && Matches(c, query, kind)
  {
    hide Matches;
    if cards == [] {
    } else {
      assert cards == [cards[0]] + cards[1..];
      MatchingHolds(cards[1..], query, kind, c);
    }
  }

  lemma HexFormStarts(id: u32)
    ensures HexForm(id) != []
  {
  }

  /** Searching for the hexadecimal form finds the cards with that id, in order, and no other. */
  lemma {:induction false} HexSearchIsExact(cards: seq<Card>, id: u32)
    ensures FilterCards(cards, HexForm(id), ById) == WithId(cards, id)
  {
    hide Matches, HexForm;
    HexFormStarts(id);
    if cards == [] {
    } else {
      HexQueryMatches(cards[0], id);
      HexSearchIsExact(cards[1..], id);
    }
  }

  /** Searching for the decimal form finds every card with that id. */
  lemma DecSearchFinds(cards: seq<Card>, card: Card)
    requires card in cards
    ensures card in FilterCards(cards, DecForm(card.id), ById)
  {
    hide Digits, Matching, Includes, ParseCardId;
    DecFormParses(card.id);
    MatchingHolds(cards, DecForm(card.id), ById, card);
  }

  lemma LowerDigits(id: u32)
    ensures ToLower(DecForm(id)) == DecForm(id)
  {
    hide Digits, DigitChar, LowerChar;
    CharsFacts(Digits(id, 10));
  }

  /** Any part of a card's name finds it, in whatever case it is typed; any part of its decimal form does too. */
  lemma PartFinds(cards: seq<Card>, card: Card, part: string, i: nat)
    requires card in cards && part != []
    ensures i + |part| <= |card.name| && ToLower(part) == ToLower(card.name[i..i + |part|]) ==>
              card in FilterCards(cards, part, ByName)
    ensures i + |part| <= |DecForm(card.id)| && part == DecForm(card.id)[i..i + |part|] ==>
              card in FilterCards(cards, part, ById)
  {
    hide Digits, Matching, ParseCardId;
    if i + |part| <= |card.name| && ToLower(part) == ToLower(card.name[i..i + |part|]) {
      assert ToLower(card.name)[i..i + |part|] == ToLower(card.name[i..i + |part|]);
      assert StandsAt(ToLower(card.name), ToLower(part), i);
      MatchingHolds(cards, part, ByName, card);
    }
    if i + |part| <= |DecForm(card.id)| && part == DecForm(card.id)[i..i + |part|] {
      LowerDigits(card.id);
      assert ToLower(part) == ToLower(DecForm(card.id))[i..i + |part|];
      assert StandsAt(DecForm(card.id), ToLower(part), i);
      MatchingHolds(cards, part, ById, card);
    }
  }

  /** The same letter in either case, or the same character. */
  predicate SameLetter(c: char, d: char) {
    c == d || ('A' <= c <= 'Z' && d as int == c as int + 32) || ('A' <= d <= 'Z' && c as int == d as int + 32)
  }

  lemma LowerSame(c: char, d: char)
    ensures LowerChar(c) == LowerChar(d) <==> SameLetter(c, d)
  {
  }

  /** This part stands here, letter case aside. */
  ghost predicate FoldedAt(s: string, part: string, i: nat) {
    i + |part| <= |s| && forall k :: 0 <= k < |part| ==> SameLetter(s[i + k], part[k])
  }

  lemma FoldedStands(s: string, part: string, i: nat)
    requires i + |part| <= |s|
    ensures FoldedAt(s, part, i) <==> StandsAt(ToLower(s), ToLower(part), i)
  {
    hide LowerChar, SameLetter;
    var low, p := ToLower(s), ToLower(part);
    forall k | 0 <= k < |part|
      ensures low[i..i + |part|][k] == p[k] <==> SameLetter(s[i + k], part[k])
    {
      LowerSame(s[i + k], part[k]);
    }
    if FoldedAt(s, part, i) {
      assert forall k :: 0 <= k < |part| ==> low[i..i + |part|][k] == p[k];
    } else {
      var k :| 0 <= k < |part| && !SameLetter(s[i + k], part[k]);
      assert low[i..i + |part|][k] != p[k];
    }
  }

  lemma FoldedInside(s: string, part: string, i: nat)
    requires FoldedAt(s, part, i)
    ensures i + |part| <= |s|
  {
  }

  /** A search by name finds a card exactly if the text stands in its name, letter case aside. */
  lemma NameSearchIff(cards: seq<Card>, card: Card, part: string)
    requires card in cards && part != []
    ensures card in FilterCards(cards, part, ByName) <==> exists i: nat :: FoldedAt(card.name, part, i)
  {
    hide Matching, ToLower, FoldedAt;
    MatchingHolds(cards, part, ByName, card);
    var low, p := ToLower(card.name), ToLower(part);
    if Includes(low, p) {
      var i: nat :| i <= |low| - |p| && StandsAt(low, p, i);
      FoldedStands(card.name, part, i);
    }
    if i: nat :| FoldedAt(card.name, part, i) {
      FoldedInside(card.name, part, i);
      FoldedStands(card.name, part, i);
    }
  }

  /** This text stands here. */
  predicate TextAt(s: string, part: string, i: nat) {
    i + |part| <= |s| && s[i..i + |part|] == part
  }

  ghost predicate StandsIn(s: string, part: string) {
    exists i: nat :: TextAt(s, part, i)
  }

  lemma StandsInIncludes(s: string, part: string)
    ensures StandsIn(s, part) <==> Includes(s, part)
  {
    if StandsIn(s, part) {
      var i: nat :| TextAt(s, part, i);
      assert StandsAt(s, part, i);
    }
    if Includes(s, part) {
      var i: nat :| i <= |s| - |part| && StandsAt(s, part, i);
      assert TextAt(s, part, i);
    }
  }

  /**
   A search by id finds a card exactly if the text is read as its id, or stands,
   in lower case, in its decimal, its hexadecimal or its prefixed form.
   */
  lemma IdSearchIff(cards: seq<Card>, card: Card, part: string)
    requires card in cards && part != []
    ensures card in FilterCards(cards, part, ById) <==>
              var low, hex := ToLower(part), ToText(card.id, 16);
              || ParseCardId(part) == Some(card.id as int)
              || StandsIn(ToText(card.id, 10), low) || StandsIn(hex, low) || StandsIn("0x" + hex, low)
  {
    hide Matching, ToLower, ToText, StandsIn, Includes, ParseCardId;
    MatchingHolds(cards, part, ById, card);
    var low, hex := ToLower(part), ToText(card.id, 16);
    StandsInIncludes(ToText(card.id, 10), low);
    StandsInIncludes(hex, low);
    StandsInIncludes("0x" + hex, low);
  }

  lemma {:induction false} MatchingAppends(cards: seq<Card>, more: seq<Card>, query: string, kind: SearchType)
    ensures Matching(cards + more, query, kind) == Matching(cards, query, kind) + Matching(more, query, kind)
    decreases |cards|
  {
    hide Matches;
    if cards == [] {
      assert cards + more == more;
    } else {
      var rest := cards[1..];
      var head := if Matches(cards[0], query, kind) then [cards[0]] else [];
      assert (cards + more)[0] == cards[0] && (cards + more)[1..] == rest + more;
      MatchingAppends(rest, more, query, kind);
      assert head + (Matching(rest, query, kind) + Matching(more, query, kind))
          == head + Matching(rest, query, kind) + Matching(more, query, kind);
    }
  }

  /** The order is kept: searching two lists one after the other is searching them together. */
  lemma FilterAppends(cards: seq<Card>, more: seq<Card>, query: string, kind: SearchType)
    ensures FilterCards(cards + more, query, kind) == FilterCards(cards, query, kind) + FilterCards(more, query, kind)
  {
    hide Matching;
    MatchingAppends(cards, more, query, kind);
  }

  /** One card is found once or not at all, and by an empty query always. */
  lemma FilterOne(card: Card, query: string, kind: SearchType)
    ensures FilterCards([card], query, kind) == [] || FilterCards([card], query, kind) == [card]
    ensures query == [] ==> FilterCards([card], query, kind) == [card]
  {
    hide Matches;
    assert [card][1..] == [];
    assert Matching([], query, kind) == [];
  }

  /** What toString(10) and toString(16) print: the number in lower-case digits, without leading zeros. */
  lemma ToTextIs(n: nat, base: Radix)
    ensures var s := ToText(n, base);
            && s != [] && (s[0] == '0' ==> n == 0)
            && (forall i :: 0 <= i < |s| ==> '0' <= s[i] <= '9' || (base == 16 && 'a' <= s[i] <= 'f'))
            && |DigitRun(s, base)| == |s| && Value(DigitRun(s, base), base) == n
  {
    hide Digits, Value, DigitRun;
    var ds := Digits(n, base);
    RunOfChars(ds, base);
    ValueOfDigits(n, base);
    forall i | 0 <= i < |ds|
      ensures var c := Chars(ds)[i]; ('0' <= c <= '9' || (base == 16 && 'a' <= c <= 'f')) && (c == '0' ==> ds[i] == 0)
    {
    }
  }

  /** The hexadecimal form: the prefix and eight digits in upper case. */
  lemma HexFormIs(id: u32)
    ensures var s := HexForm(id);
            && |s| == 10 && s[..2] == "0x"
            && forall i :: 2 <= i < 10 ==> '0' <= s[i] <= '9' || 'A' <= s[i] <= 'F'
  {
    hide Digits;
    PaddedDigits(id);
    var text := ToText(id, 16);
    forall i | 0 <= i < |text| ensures var c := UpperChar(text[i]); '0' <= c <= '9' || 'A' <= c <= 'F' {
    }
  }

  // ---- Other texts ----

  /** The blanks of ASCII. */
  predicate Blank(c: char) {
    c in " \t\n\r" || c == 11 as char || c == 12 as char
  }

  predicate Blanks(s: string) {
    forall i :: 0 <= i < |s| ==> Blank(s[i])
  }

  lemma BlankSpace(c: char)
    ensures Blank(c) <==> IsSpace(c)
  {
  }

  /** Blanks around a text are dropped. */
  lemma {:induction false} TrimDrops(before: string, s: string, after: string)
    requires Blanks(before) && Blanks(after) && s != [] && !Blank(s[0]) && !Blank(s[|s| - 1])
    ensures Trim(before + s + after) == s
    decreases |before| + |after|
  {
    hide Blank, IsSpace;
    var text := before + s + after;
    BlankSpace(text[0]);
    BlankSpace(text[|text| - 1]);
    if before != [] {
      assert text[1..] == before[1..] + s + after;
      TrimDrops(before[1..], s, after);
    } else if after != [] {
      var n := |after| - 1;
      assert text[..|text| - 1] == before + s + after[..n];
      TrimDrops(before, s, after[..n]);
    } else {
      assert text == s;
    }
  }

  /** So they change neither the id read nor what the guard stops. */
  lemma BlanksDoNotMatter(before: string, s: string, after: string)
    requires Blanks(before) && Blanks(after) && s != [] && !Blank(s[0]) && !Blank(s[|s| - 1])
    ensures ParseCardId(before + s + after) == ParseCardId(s)
    ensures IsAdminCard(before + s + after) <==> IsAdminCard(s)
  {
    hide Trim, ParseText, IsAdminText;
    TrimDrops(before, s, after);
    TrimDrops([], s, []);
    assert [] + s + [] == s;
  }

  lemma {:induction false} RunStops(ds: seq<nat>, rest: string, base: Radix)
    requires forall i :: 0 <= i < |ds| ==> ds[i] < base
    requires rest != [] ==> !IsDigitOf(rest[0], base)
    ensures DigitRun(Chars(ds) + rest, base) == ds
    decreases |ds|
  {
    hide DigitChar, DigitOf;
    if ds == [] {
      assert Chars(ds) + rest == rest;
    } else {
      CharsFacts(ds);
      assert (Chars(ds) + rest)[1..] == Chars(ds[1..]) + rest;
      assert (Chars(ds) + rest)[0] == Chars(ds)[0];
      RunStops(ds[1..], rest, base);
      assert ds == [ds[0]] + ds[1..];
    }
  }

  lemma PrefixDropped(digits: string)
    ensures "0x" <= "0x" + digits
    ensures var run := DigitRun(digits, 16);
            ParseInt("0x" + digits, 16) == if run == [] then None else Some(Value(run, 16))
  {
    hide Value, DigitRun;
    assert ("0x" + digits)[2..] == digits;
  }

  /** After the prefix the hexadecimal digits count, up to the first other character; without one it is no number. */
  lemma PrefixedParses(ds: seq<nat>, rest: string)
    requires forall i :: 0 <= i < |ds| ==> ds[i] < 16
    requires rest != [] ==> !IsDigitOf(rest[0], 16)
    ensures ParseText("0x" + (Chars(ds) + rest)) == if ds == [] then None else Some(Value(ds, 16))
  {
    hide Value, DigitRun, Chars, ParseInt, IsDigitOf, HexOnly;
    RunStops(ds, rest, 16);
    PrefixDropped(Chars(ds) + rest);
  }

  lemma UnsignedParses(text: string)
    requires text != [] ==> text[0] != '-' && text[0] != '+'
    ensures var run := DigitRun(text, 10);
            ParseInt(text, 10) == if run == [] then None else Some(Value(run, 10))
  {
    hide Value, DigitRun;
  }

  lemma NoSign(ds: seq<nat>, rest: string)
    requires forall i :: 0 <= i < |ds| ==> ds[i] < 10
    requires ds == [] && rest != [] ==> rest[0] != '-' && rest[0] != '+'
    ensures var text := Chars(ds) + rest; text != [] ==> text[0] != '-' && text[0] != '+'
  {
    hide DigitChar, DigitOf;
    CharsFacts(ds);
  }

  lemma NotHexOnly(text: string)
    requires text != [] && (text[0] == '-' || text[0] == '+')
    ensures !HexOnly(text) && !("0x" <= text)
  {
    assert !IsDigitOf(text[0], 16);
  }

  lemma SignDropped(digits: string)
    ensures var run := DigitRun(digits, 10);
            && ParseInt(['-'] + digits, 10) == (if run == [] then None else Some(Value(run, 10) * -1))
            && ParseInt(['+'] + digits, 10) == (if run == [] then None else Some(Value(run, 10) * 1))
  {
    hide Value, DigitRun;
    assert (['-'] + digits)[1..] == digits && (['+'] + digits)[1..] == digits;
  }

  /** A sign before the digits is taken. */
  lemma SignedParses(ds: seq<nat>, rest: string)
    requires ds != [] && forall i :: 0 <= i < |ds| ==> ds[i] < 10
    requires rest != [] ==> !IsDigitOf(rest[0], 10)
    ensures ParseText(['-'] + (Chars(ds) + rest)) == Some(Value(ds, 10) * -1)
    ensures ParseText(['+'] + (Chars(ds) + rest)) == Some(Value(ds, 10) * 1)
  {
    hide Value, DigitRun, Chars, HasLetter, HexOnly, ParseInt, IsDigitOf;
    RunStops(ds, rest, 10);
    SignDropped(Chars(ds) + rest);
    NotHexOnly(['-'] + (Chars(ds) + rest));
    NotHexOnly(['+'] + (Chars(ds) + rest));
  }

  /**
   A text that is neither prefixed nor up to eight hexadecimal digits is read as a
   decimal number up to the first character that is no digit; without a digit
   it is no number.
   */
  lemma OtherTextParses(ds: seq<nat>, rest: string)
    requires forall i :: 0 <= i < |ds| ==> ds[i] < 10
    requires rest != [] ==> !IsDigitOf(rest[0], 10)
    requires ds == [] && rest != [] ==> rest[0] != '-' && rest[0] != '+'
    requires var text := Chars(ds) + rest; !("0x" <= text) && (text == [] || |text| > 8 || !HexOnly(text))
    ensures ParseText(Chars(ds) + rest) == if ds == [] then None else Some(Value(ds, 10))
  {
    hide Value, DigitRun, Chars, HexOnly, HasLetter, ParseInt, IsDigitOf;
    RunStops(ds, rest, 10);
    NoSign(ds, rest);
    UnsignedParses(Chars(ds) + rest);
  }

  // ---- The admin guard ----

  const ONE_TO_EIGHT: seq<nat> := [1, 2, 3, 4, 5, 6, 7, 8]

  lemma OneToEightText()
    ensures Chars(ONE_TO_EIGHT) == "12345678" && ADMIN_CARD_HEX[2..] == "12345678"
  {
    var s := Chars(ONE_TO_EIGHT);
    assert s[0] == '1' && s[1] == '2' && s[2] == '3' && s[3] == '4';
    assert s[4] == '5' && s[5] == '6' && s[6] == '7' && s[7] == '8';
  }

  lemma OneToEightValue(base: Radix)
    ensures Value(ONE_TO_EIGHT, base) == if base == 10 then 12345678 else ADMIN_CARD_ID
  {
    var ds := ONE_TO_EIGHT;
    assert ds[..7] == [1, 2, 3, 4, 5, 6, 7] && ds[..7][..6] == [1, 2, 3, 4, 5, 6];
    var four := [1, 2, 3, 4];
    assert [1, 2, 3, 4, 5, 6][..5] == [1, 2, 3, 4, 5] && [1, 2, 3, 4, 5][..4] == four;
    assert four[..3] == [1, 2, 3] && [1, 2, 3][..2] == [1, 2] && [1, 2][..1] == [1] && [1][..0] == [];
    assert Value([1, 2], base) == base + 2;
    assert Value(four, base) == Value([1, 2, 3], base) * base + 4;
  }

  lemma AdminHex()
    ensures ParseInt(ADMIN_CARD_HEX, 16) == Some(ADMIN_CARD_ID)
  {
    hide Chars, Value, DigitRun;
    OneToEightText();
    RunOfChars(ONE_TO_EIGHT, 16);
    OneToEightValue(16);
  }

  lemma AdminDigits()
    ensures ParseInt("12345678", 10) == Some(12345678)
    ensures HexOnly("12345678") && !HasLetter("12345678")
  {
    hide Chars, Value, DigitRun, ParseInt, HexOnly, HasLetter;
    OneToEightText();
    CharsNormalized(ONE_TO_EIGHT);
    ParseDigits(ONE_TO_EIGHT, 10);
    OneToEightValue(10);
  }

  /**
   Every spelling of the admin card's id is caught, and one more text: the
   hexadecimal digits without prefix, which are read as another card's id. The
   text is what trimming and lowering leave, whatever these do.
   */
  lemma AdminGuard(text: string)
    ensures IsAdminText(text) <==> ParseText(text) == Some(0x12345678) || text == "12345678"
    ensures text == "12345678" ==> ParseText(text) == Some(12345678)
  {
    if text == ADMIN_CARD_HEX {
      AdminHex();
    }
    if text == "12345678" {
      AdminDigits();
    }
  }

  lemma DecimalOneToEight()
    ensures Normalized(DecForm(12345678)) == "12345678"
  {
    hide Chars, Normalized;
    assert Digits(12, 10) == [1, 2] && Digits(1234, 10) == [1, 2, 3, 4];
    assert Digits(123456, 10) == [1, 2, 3, 4, 5, 6];
    assert Digits(12345678, 10) == ONE_TO_EIGHT;
    CharsNormalized(ONE_TO_EIGHT);
    OneToEightText();
  }

  /** Of the forms the page prints, the guard stops the admin card's, and the decimal one of card 12345678. */
  lemma GuardOnPrintedForms(id: u32)
    ensures IsAdminCard(HexForm(id)) <==> id == 0x12345678
    ensures IsAdminCard(DecForm(id)) <==> id == 0x12345678 || id == 12345678
  {
    hide IsAdminText, HexForm, DecForm, ParseText, Normalized;
    HexFormParses(id);
    DecFormParses(id);
    AdminGuard(Normalized(HexForm(id)));
    AdminGuard(Normalized(DecForm(id)));
    HexFormText(id);
    assert ("0x" + Chars(Padded(id)))[1] == 'x' && "12345678"[1] == '2';
    if id == 12345678 {
      DecimalOneToEight();
    }
  }
}
