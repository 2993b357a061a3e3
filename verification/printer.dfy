/** Printing the card list into a buffer of fixed size, as rfid_manager_get_card_list_json does. */
module Printer {
  import opened Base
  import opened Codec
  import opened CStr
  import opened Json
  import opened Numerals
  import opened Listing

  const MARGIN := 100

  /** The length of the text before entry `i` is printed. */
  function LengthBefore(count: nat, cards: seq<Card>, i: nat): nat
    requires i <= |cards|
  {
    |Prefix(count) + Joined(cards[..i])|
  }

  /** The entry at which printing stops: the first that fails the margin test, or the end. */
  function StopAt(count: nat, cards: seq<Card>, cap: nat, i: nat): (k: nat)
    requires i <= |cards|
    ensures i <= k <= |cards|
    ensures forall j :: i <= j < k ==> LengthBefore(count, cards, j) + 100 < cap
    ensures k < |cards| ==> LengthBefore(count, cards, k) + 100 >= cap
    decreases |cards| - i
  {
    if i == |cards| || LengthBefore(count, cards, i) + MARGIN >= cap then i
    else StopAt(count, cards, cap, i + 1)
  }

  // ---- Lengths ----

  predicate AllTerminated(cards: seq<Card>) {
    forall i :: 0 <= i < |cards| ==> Terminated(cards[i])
  }

  lemma EntryLength(c: Card)
    ensures |Entry(c)| == 40 + |Dec(c.id)| + |NameOf(c)| + |Dec(c.active)| + |Dec(c.timestamp)|
  {
    hide Ascii, Dec, NameOf;
    assert |Ascii("{\"id\":")| == 6 && |Ascii(",\"name\":\"")| == 9 && |Ascii("\",\"active\":")| == 11;
    assert |Ascii(",\"timestamp\":")| == 13 && |Ascii("}")| == 1;
  }

  /** An entry is at most 94 bytes; with its comma, 95, which is under the margin. */
  lemma EntryBound(c: Card)
    requires Terminated(c)
    ensures |Entry(c)| <= 94
    ensures c.active == 1 ==> |Entry(c)| <= 92
  {
    EntryLength(c);
    DecLengths(c.id);
    DecLengths(c.active);
    DecLengths(c.timestamp);
    if c.active == 1 {
      assert Dec(1) == [49];
    }
  }

  lemma PrefixLength(count: u16)
    ensures |Prefix(count)| == 33 + |Dec(count)|
    ensures 34 <= |Prefix(count)| <= 38
    ensures count < 1_000 ==> |Prefix(count)| <= 36
    ensures count < 100 ==> |Prefix(count)| <= 35
  {
    DecLengths(count);
    if count < 100 {
      assert Pow(10, 2) == 10 * Pow(10, 1) == 100;
      DigitsBound(count, 10, 2);
    }
    assert |Ascii("{\"status\":\"ok\",\"count\":")| == 23 && |Ascii(",\"cards\":[")| == 10;
  }

  lemma {:induction false} JoinedBound(cards: seq<Card>, width: nat)
    requires forall i :: 0 <= i < |cards| ==> |Entry(cards[i])| <= width
    ensures |Joined(cards)| <= (width + 1) * |cards|
    ensures cards != [] ==> |Joined(cards)| < (width + 1) * |cards|
  {
    hide Entry;
    if |cards| <= 1 {
    } else {
      JoinedBound(cards[1..], width);
      assert (width + 1) * |cards| == (width + 1) + (width + 1) * |cards[1..]|;
    }
  }

  lemma JoinedEmpty(cards: seq<Card>)
    ensures cards == [] ==> Joined(cards) == []
  {
  }

  lemma Grows(a: nat, x: nat, y: nat)
    requires x <= y
    ensures a * x <= a * y
  {
  }

  /**
   A list whose entries are at most `width` long is printed completely if the
   buffer has room for all but the last entry and the margin.
   */
  lemma PrintedCompletely(count: u16, cards: seq<Card>, cap: nat, width: nat)
    requires forall i :: 0 <= i < |cards| ==> |Entry(cards[i])| <= width
    requires cards != [] ==> |Prefix(count)| + (width + 1) * (|cards| - 1) + MARGIN < cap
    ensures StopAt(count, cards, cap, 0) == |cards|
  {
    hide Joined, Prefix, Entry;
    var k := StopAt(count, cards, cap, 0);
    if k < |cards| {
      JoinedEmpty(cards[..k]);
      JoinedBound(cards[..k], width);
      Grows(width + 1, k, |cards| - 1);
    }
  }

  lemma NextEntry(count: nat, cards: seq<Card>, i: nat)
    requires i < |cards|
    ensures var entry := (if i > 0 then [44] else []) + Entry(cards[i]);
            && Prefix(count) + Joined(cards[..i + 1]) == Prefix(count) + Joined(cards[..i]) + entry
            && LengthBefore(count, cards, i + 1) == LengthBefore(count, cards, i) + |entry|
  {
    hide Prefix, Entry, Joined;
    assert cards[..i + 1] == cards[..i] + [cards[i]];
    JoinedAppend(cards[..i], cards[i]);
  }

  lemma {:induction false} LengthGrows(count: nat, cards: seq<Card>, i: nat, j: nat)
    requires i <= j <= |cards|
    ensures LengthBefore(count, cards, i) <= LengthBefore(count, cards, j)
    decreases j
  {
    if i == j {
    } else {
      NextEntry(count, cards, j - 1);
      LengthGrows(count, cards, i, j - 1);
    }
  }

  /** A list is printed completely exactly if its last entry is begun with the margin free. */
  lemma CompleteIff(count: nat, cards: seq<Card>, cap: nat)
    ensures StopAt(count, cards, cap, 0) == |cards|
            <==> cards == [] || LengthBefore(count, cards, |cards| - 1) + 100 < cap
  {
    hide LengthBefore;
    var k := StopAt(count, cards, cap, 0);
    if k < |cards| {
      LengthGrows(count, cards, k, |cards| - 1);
    }
  }

  /** Any 31 cards fit the server's buffer of 3072 bytes; 32 do if all are active, as stored ones are. */
  lemma ThirtyOneFit(cards: seq<Card>)
    requires AllTerminated(cards)
    requires |cards| <= 31 || (|cards| == 32 && forall i :: 0 <= i < |cards| ==> cards[i].active == 1)
    ensures StopAt(|cards|, cards, 3072, 0) == |cards|
  {
    PrefixLength(|cards|);
    forall i | 0 <= i < |cards|
      ensures |Entry(cards[i])| <= 94 && (cards[i].active == 1 ==> |Entry(cards[i])| <= 92)
    {
      EntryBound(cards[i]);
    }
    PrintedCompletely(|cards|, cards, 3072, if |cards| <= 31 then 94 else 92);
  }

  /** A card whose entry has the greatest length. */
  function LongCard(i: nat): Card
    requires i < 32
  {
    Card(0xFFFF_FFFF - i, 255, seq(31, _ => 65) + [0], [0, 0, 0], 0xFFFF_FFFF)
  }

  lemma LongEntry(i: nat)
    requires i < 32
    ensures Terminated(LongCard(i)) && |Entry(LongCard(i))| == 94
  {
    var c := LongCard(i);
    var name: CString := seq(31, _ => 65);
    UpToNulStops(name, [0]);
    EntryLength(c);
    Powers();
    DecLengths(c.id);
    DecLengths(c.active);
    DecLengths(c.timestamp);
    DigitsAtLeast(c.id, 10, 9);
    DigitsAtLeast(c.timestamp, 10, 9);
    assert Pow(10, 2) == 10 * Pow(10, 1) == 100;
    DigitsAtLeast(255, 10, 2);
  }

  lemma {:induction false} JoinedLength(cards: seq<Card>, width: nat)
    requires forall i :: 0 <= i < |cards| ==> |Entry(cards[i])| == width
    ensures cards != [] ==> |Joined(cards)| + 1 == (width + 1) * |cards|
  {
    hide Entry;
    if |cards| <= 1 {
    } else {
      JoinedLength(cards[1..], width);
      assert (width + 1) * |cards| == (width + 1) + (width + 1) * |cards[1..]|;
    }
  }

  function LongCards(): (cards: seq<Card>)
    ensures |cards| == 32
    ensures forall i :: 0 <= i < 32 ==> cards[i] == LongCard(i)
  {
    seq(32, i requires 0 <= i < 32 => LongCard(i))
  }

  lemma LongPrefix()
    ensures |Prefix(32)| == 35
  {
    PrefixLength(32);
    assert Pow(10, 1) == 10;
    DigitsAtLeast(32, 10, 1);
  }

  lemma LongLengths(k: nat)
    requires k <= 31
    ensures k > 0 ==> |Joined(LongCards()[..k])| + 1 == 95 * k
  {
    var cards := LongCards()[..k];
    forall i | 0 <= i < |cards|
      ensures |Entry(cards[i])| == 94
    {
      LongEntry(i);
    }
    hide LongCards, LongCard, Entry, Joined;
    JoinedLength(cards, 94);
  }

  lemma LongBefore(k: nat)
    requires k <= 31
    ensures LengthBefore(32, LongCards(), k) == if k == 0 then 35 else 34 + 95 * k
  {
    LongPrefix();
    LongLengths(k);
    JoinedEmpty(LongCards()[..k]);
  }

  lemma LongStop()
    ensures StopAt(32, LongCards(), 3072, 0) == 31
  {
    hide LengthBefore, LongCards;
    var cards := LongCards();
    var k := StopAt(32, cards, 3072, 0);
    LongBefore(31);
    if k < 31 {
      LongBefore(k);
    }
  }

  /** 31 is the most that always fits: these 32 cards, with distinct ids, do not. */
  lemma ThirtyTwoMayNotFit()
    ensures AllTerminated(LongCards())
    ensures forall i, j :: 0 <= i < j < 32 ==> LongCards()[i].id != LongCards()[j].id
    ensures StopAt(32, LongCards(), 3072, 0) == 31
  {
    LongStop();
    hide StopAt, LongCards, LengthBefore, Entry;
    var cards := LongCards();
    forall i | 0 <= i < |cards|
      ensures Terminated(cards[i]) && cards[i].id == 0xFFFF_FFFF - i
    {
      LongEntry(i);
    }
  }

  // ---- The printer ----

  /** The buffer a call leaves, and its result. */
  function Output(count: nat, cards: seq<Card>, cap: nat): (bytes, EspErr)
    requires cap >= 3
  {
    var k := StopAt(count, cards, cap, 0);
    var text := ListText(count, cards[..k]);
    if |Prefix(count)| + 3 < cap then
      (text + Zeros(if |text| < cap then cap - |text| else 0), if k == |cards| then Ok else NoMem)
    else (Prefix(count)[..cap - 3] + Ascii("]}") + [0], NoMem)
  }

  /** The running length cannot wrap: few cards, or a buffer that a 16-bit length can describe. */
  predicate Narrow(count: u16, cap: nat) {
    count <= 200 || cap <= 0x1_0000
  }

  lemma FewCardsShort(count: u16, cards: seq<Card>, i: nat)
    requires i <= |cards| == count <= 200 && AllTerminated(cards)
    ensures LengthBefore(count, cards, i) <= 38 + 95 * 200
  {
    PrefixLength(count);
    forall j | 0 <= j < i
      ensures |Entry(cards[..i][j])| <= 94
    {
      EntryBound(cards[j]);
    }
    JoinedBound(cards[..i], 94);
  }

  lemma NoWrap(count: u16, cards: seq<Card>, i: nat, cap: nat)
    requires i < |cards| == count && AllTerminated(cards) && Narrow(count, cap)
    requires LengthBefore(count, cards, i) + MARGIN < cap
    ensures LengthBefore(count, cards, i + 1) < 0x1_0000
  {
    hide LengthBefore, Entry;
    if count <= 200 {
      FewCardsShort(count, cards, i + 1);
    } else {
      EntryBound(cards[i]);
      NextEntry(count, cards, i);
    }
  }

  /** The loop over the cards, after the prefix. */
  method PrintEntries(count: u16, cards: seq<Card>, buffer: array<byte>, start: u16)
    returns (length: u16, err: EspErr)
    requires |cards| == count && AllTerminated(cards) && Narrow(count, buffer.Length) && start == |Prefix(count)|
    requires |Prefix(count)| < buffer.Length ==>
               buffer[..] == Prefix(count) + Zeros(buffer.Length - |Prefix(count)|)
    modifies buffer
    ensures var cap := buffer.Length;
            var k := StopAt(count, cards, cap, 0);
            var text := Prefix(count) + Joined(cards[..k]);
            && length == |text| && err == (if k == |cards| then Ok else NoMem)
            && (|text| < cap ==> buffer[..] == text + Zeros(cap - |text|))
            && (|text| >= cap ==> k == 0 && buffer[..] == old(buffer[..]))
            && (k > 0 ==> |text| + 3 < cap)
  {
    hide Prefix, Joined, Entry;
    var cap := buffer.Length;
    ghost var k := StopAt(count, cards, cap, 0);
    JoinedEmpty(cards[..0]);
    length := start;
    err := Ok;
    var isComma := false;
    var i := 0;
    assert Prefix(count) + [] == Prefix(count);
    while i < count
      invariant 0 <= i <= k && isComma == (i > 0) && err == Ok
      invariant length == LengthBefore(count, cards, i)
      invariant length < cap ==> buffer[..] == Prefix(count) + Joined(cards[..i]) + Zeros(cap - length)
      invariant length >= cap ==> i == 0 && buffer[..] == old(buffer[..])
      invariant i > 0 ==> length + 3 < cap
      decreases count - i
    {
      // An entry is only begun with the margin free, which is more than it can take
      if length + MARGIN >= cap {
        err := NoMem;
        break;
      }
      EntryBound(cards[i]);
      NextEntry(count, cards, i);
      NoWrap(count, cards, i, cap);
      ghost var before := Prefix(count) + Joined(cards[..i]);
      var n := Append(buffer, before, length, (if isComma then [44] else []) + Entry(cards[i]));
      length := (length + n) % 0x1_0000;
      isComma := true;
      i := i + 1;
    }
  }

  lemma ClosingLength()
    ensures |Ascii("]}")| == 2
  {
  }

  lemma WholeOutput(count: nat, cards: seq<Card>, cap: nat)
    requires cap >= 3
    requires |Prefix(count) + Joined(cards[..StopAt(count, cards, cap, 0)])| + 3 < cap
    ensures var k := StopAt(count, cards, cap, 0);
            var text := Prefix(count) + Joined(cards[..k]) + Ascii("]}");
            Output(count, cards, cap) == (text + Zeros(cap - |text|), if k == |cards| then Ok else NoMem)
  {
    hide Prefix, Joined;
  }

  lemma CutOutput(count: nat, cards: seq<Card>, cap: nat)
    requires 3 <= cap <= |Prefix(count)| + 3
    ensures Output(count, cards, cap) == (Prefix(count)[..cap - 3] + Ascii("]}") + [0], NoMem)
  {
    hide Prefix, Joined;
  }

  lemma ForcedText(prefix: bytes, cap: nat)
    requires 3 <= cap <= |prefix| + 3
    ensures (if |prefix| < cap then prefix + Zeros(cap - |prefix|) else prefix[..cap - 1] + [0])[..cap - 3]
            == prefix[..cap - 3]
  {
  }

  /** The last three bytes become the end of a list. */
  method ForceClosing(buffer: array<byte>)
    requires buffer.Length >= 3
    modifies buffer
    ensures buffer[..] == old(buffer[..])[..buffer.Length - 3] + Ascii("]}") + [0]
  {
    assert Ascii("]}") == [93, 125];
    var cap := buffer.Length;
    buffer[cap - 3] := 93;
    buffer[cap - 2] := 125;
    buffer[cap - 1] := 0;
    assert buffer[..] == buffer[..cap - 3] + [93, 125] + [0];
  }

  /** The closing brackets, after the entries. */
  method CloseList(count: u16, ghost cards: seq<Card>, buffer: array<byte>, length: u16, err: EspErr)
    returns (err': EspErr)
    requires buffer.Length >= 3
    requires var cap := buffer.Length;
             var k := StopAt(count, cards, cap, 0);
             var text := Prefix(count) + Joined(cards[..k]);
             && length == |text| && err == (if k == |cards| then Ok else NoMem)
             && (if k == 0 then text == Prefix(count) else |text| + 3 < cap)
             && (if |text| < cap then buffer[..] == text + Zeros(cap - |text|)
                 else buffer[..] == Prefix(count)[..cap - 1] + [0])
    modifies buffer
    ensures (buffer[..], err') == Output(count, cards, buffer.Length)
  {
    hide Prefix, Joined, StopAt, Output, Ascii;
    var cap := buffer.Length;
    ghost var text := Prefix(count) + Joined(cards[..StopAt(count, cards, cap, 0)]);
    err' := err;
    if length + 3 < cap {
      ClosingLength();
      var n := Append(buffer, text, length, Ascii("]}"));
      WholeOutput(count, cards, cap);
    } else {
      ForcedText(Prefix(count), cap);
      ForceClosing(buffer);
      CutOutput(count, cards, cap);
      err' := NoMem;
    }
  }

  method Clear(buffer: array<byte>)
    modifies buffer
    ensures buffer[..] == Zeros(buffer.Length)
  {
    for i := 0 to buffer.Length
      invariant forall j :: 0 <= j < i ==> buffer[j] == 0
    {
      buffer[i] := 0;
    }
  }

  /** What printing into a cleared buffer leaves there. */
  lemma IntoCleared(text: bytes, cap: nat)
    requires cap > 0
    ensures var put := Min(|text|, cap - 1);
            [] + text[..put] + [0] + Zeros(cap)[put + 1..]
            == if |text| < cap then text + Zeros(cap - |text|) else text[..cap - 1] + [0]
  {
    if |text| < cap {
      assert [0] + Zeros(cap)[|text| + 1..] == Zeros(cap - |text|);
      assert text[..|text|] == text;
    }
  }

  method PrintPrefix(count: u16, buffer: array<byte>) returns (n: nat)
    requires buffer.Length > 0 && buffer[..] == Zeros(buffer.Length)
    modifies buffer
    ensures n == |Prefix(count)|
    ensures var cap, prefix := buffer.Length, Prefix(count);
            buffer[..] == if |prefix| < cap then prefix + Zeros(cap - |prefix|) else prefix[..cap - 1] + [0]
  {
    hide Prefix, Zeros;
    n := Snprintf(buffer, 0, buffer.Length, Prefix(count));
    ghost var put := Min(|Prefix(count)|, buffer.Length - 1);
    assert old(buffer[..0]) == [];
    assert old(buffer[put + 1..]) == old(buffer[..])[put + 1..];
    IntoCleared(Prefix(count), buffer.Length);
  }

  /**
   Prints the cards read from a database that counts `count` of them; `length`
   is a uint16_t. The list is cut off before the first entry that fails the
   margin test, and what is written is always a whole text inside the buffer.
   The branch that forces the closing brackets runs only if the buffer does not
   even hold the prefix and the closing.
   */
  method PrintList(count: u16, cards: seq<Card>, buffer: array<byte>) returns (err: EspErr)
    requires |cards| == count && AllTerminated(cards) && Narrow(count, buffer.Length) && buffer.Length >= 3
    modifies buffer
    ensures (buffer[..], err) == Output(count, cards, buffer.Length)
  {
    var cap := buffer.Length;
    ghost var k := StopAt(count, cards, cap, 0);
    PrefixLength(count);
    JoinedEmpty(cards[..0]);
    assert Prefix(count) + [] == Prefix(count);
    hide Prefix, Joined, Entry, StopAt, Ascii, Output;
    Clear(buffer);
    var n := PrintPrefix(count, buffer);
    var length: u16 := n % 0x1_0000;
    length, err := PrintEntries(count, cards, buffer, length);
    err := CloseList(count, cards, buffer, length, err);
  }

  /**
   A buffer of at least 40 bytes (42 from 1000 cards on) never meets the
   forced closing: it gets the whole text for the first cards, ended by NUL
   inside the buffer, and the result is Ok exactly if these are all the cards.
   */
  lemma OutputIsWhole(count: u16, cards: seq<Card>, cap: nat)
    requires |cards| == count && AllTerminated(cards) && cap >= if count < 1_000 then 40 else 42
    ensures var k := StopAt(count, cards, cap, 0);
            var text := ListText(count, cards[..k]);
            && |text| < cap
            && Output(count, cards, cap) == (text + Zeros(cap - |text|), if k == |cards| then Ok else NoMem)
  {
    hide Prefix, Joined, Entry;
    PrefixLength(count);
    var k := StopAt(count, cards, cap, 0);
    JoinedEmpty(cards[..k]);
    if k > 0 {
      NextEntry(count, cards, k - 1);
      EntryBound(cards[k - 1]);
    }
    WholeOutput(count, cards, cap);
  }

  lemma AsciiIsCString(s: string)
    requires forall i :: 0 <= i < |s| ==> 0 < s[i] as int < 0x100
    ensures 0 !in Ascii(s)
  {
  }

  lemma EntryIsCString(c: Card)
    ensures 0 !in Entry(c)
  {
    hide Ascii, Dec, NameOf;
    AsciiIsCString("{\"id\":");
    AsciiIsCString(",\"name\":\"");
    AsciiIsCString("\",\"active\":");
    AsciiIsCString(",\"timestamp\":");
    AsciiIsCString("}");
  }

  lemma {:induction false} JoinedIsCString(cards: seq<Card>)
    ensures 0 !in Joined(cards)
  {
    hide Entry;
    if cards == [] {
    } else {
      EntryIsCString(cards[0]);
      JoinedIsCString(cards[1..]);
    }
  }

  lemma TextIsCString(count: nat, cards: seq<Card>)
    ensures 0 !in ListText(count, cards)
  {
    hide Ascii, Dec, Joined;
    AsciiIsCString("{\"status\":\"ok\",\"count\":");
    AsciiIsCString(",\"cards\":[");
    AsciiIsCString("]}");
    JoinedIsCString(cards);
  }

  /**
   From the stored cards to the reader of the response: whenever the printer
   reports success, the C string in the buffer is a JSON text for exactly those
   cards if and only if no name needs escaping and all are UTF-8.
   */
  lemma PrintedReadsBack(count: u16, cards: seq<Card>, cap: nat)
    requires |cards| == count && AllTerminated(cards) && cap >= if count < 1_000 then 40 else 42
    requires Output(count, cards, cap).1 == Ok
    ensures Read(UpToNul(Output(count, cards, cap).0)) == Some(ListValue(count, cards))
            <==> AllPlain(cards) && AllUtf8(cards)
  {
    hide StopAt, Output, ListText, ListValue, Read, UpToNul, AllPlain, AllUtf8;
    OutputIsWhole(count, cards, cap);
    var text := ListText(count, cards[..StopAt(count, cards, cap, 0)]);
    assert cards[..|cards|] == cards;
    TextIsCString(count, cards);
    UpToNulStops(text, Zeros(cap - |text|));
    ListReadsBack(count, cards);
  }

  /** That is: a status, the count, and each card's id, name, active flag and time, under these names. */
  lemma PrintedMeans(count: u16, cards: seq<Card>, cap: nat)
    requires |cards| == count && AllTerminated(cards) && cap >= if count < 1_000 then 40 else 42
    requires Output(count, cards, cap).1 == Ok
    ensures var v := Read(UpToNul(Output(count, cards, cap).0));
            v.Some? && ShowsList(v.value, count, cards) <==> AllPlain(cards) && AllUtf8(cards)
  {
    hide StopAt, Output, ListValue, Read, UpToNul, AllPlain, AllUtf8, ShowsList;
    PrintedReadsBack(count, cards, cap);
    var v := Read(UpToNul(Output(count, cards, cap).0));
    if v.Some? {
      ListIsShown(v.value, count, cards);
    }
  }

  /** A buffer that is too small even for no cards gets what fits of the text, then `]}` and a NUL. */
  lemma ForcedOutput(count: nat, cards: seq<Card>, cap: nat)
    requires 3 <= cap <= |Prefix(count)| + 3
    ensures var (buffer, err) := Output(count, cards, cap);
            && err == NoMem && |buffer| == cap
            && buffer[..cap - 3] == ListText(count, cards)[..cap - 3]
            && buffer[cap - 3] == 93 && buffer[cap - 2] == 125 && buffer[cap - 1] == 0
  {
    hide StopAt, Prefix, Joined;
    assert Ascii("]}") == [93, 125];
    assert ListText(count, cards) == Prefix(count) + (Joined(cards) + Ascii("]}"));
  }

  function ErrorText(message: string): bytes {
    Ascii("{\"status\":\"error\",\"message\":\"") + Ascii(message) + Ascii("\"}")
  }

  /** The buffer starts with this error report, cut off if it is too long, and a NUL. */
  ghost predicate Reports(buffer: bytes, message: string) {
    var text := ErrorText(message);
    var put := Min(|text|, |buffer| - 1);
    buffer != [] && buffer[..put + 1] == text[..put] + [0]
  }

  method PrintError(buffer: array<byte>, message: string)
    requires buffer.Length > 0
    modifies buffer
    ensures Reports(buffer[..], message)
  {
    hide ErrorText;
    var text := ErrorText(message);
    var n := Snprintf(buffer, 0, buffer.Length, text);
    ghost var put := Min(|text|, buffer.Length - 1);
    assert buffer[..][..put + 1] == text[..put] + [0];
  }

  lemma ErrorPlain()
    ensures Plain(Ascii("status")) && Plain(Ascii("error")) && Plain(Ascii("message"))
  {
  }

  lemma ErrorHead()
    ensures Ascii("{\"status\":\"error\"") == [123] + Key(Ascii("status")) + ([QUOTE] + Ascii("error") + [QUOTE])
  {
  }

  lemma ErrorKey()
    ensures Ascii(",\"message\":\"") == [COMMA] + (Key(Ascii("message")) + [QUOTE])
    ensures Ascii("\"}") == [QUOTE] + ([125] + [])
  {
  }

  lemma ErrorSplit()
    ensures Ascii("{\"status\":\"error\",\"message\":\"")
         == Ascii("{\"status\":\"error\"") + Ascii(",\"message\":\"")
  {
  }

  lemma ErrorLiteral()
    ensures var head := [123] + Key(Ascii("status")) + ([QUOTE] + Ascii("error") + [QUOTE]);
            Ascii("{\"status\":\"error\",\"message\":\"") == head + ([COMMA] + (Key(Ascii("message")) + [QUOTE]))
    ensures IsAscii(Ascii("{\"status\":\"error\",\"message\":\"")) && IsAscii(Ascii("\"}"))
  {
    hide Ascii, Key, IsAscii;
    ErrorSplit();
    ErrorHead();
    ErrorKey();
    AsciiIsAscii("{\"status\":\"error\",\"message\":\"");
    AsciiIsAscii("\"}");
  }

  lemma ErrorParts(first: bytes, last: bytes, message: string)
    requires IsAscii(Ascii(message))
    requires first == Key(Ascii("status")) + ([QUOTE] + Ascii("error") + [QUOTE] + ([COMMA] + last))
    ensures first != [] && first[0] == QUOTE && IsUtf8(ErrorText(message)) && Ws([]) == []
  {
    hide Ascii, IsAscii;
    ErrorLiteral();
    var open, close := Ascii("{\"status\":\"error\",\"message\":\""), Ascii("\"}");
    assert ErrorText(message) == open + (Ascii(message) + (close + []));
    Utf8After(open, Ascii(message) + (close + []));
    Utf8After(Ascii(message), close + []);
    Utf8After(close, []);
  }

  /** An error report is a JSON object of a status and the message. */
  lemma ErrorReads(message: string)
    requires Plain(Ascii(message)) && IsAscii(Ascii(message))
    ensures Read(ErrorText(message))
            == Some(Obj([(Ascii("status"), Str(Ascii("error"))), (Ascii("message"), Str(Ascii(message)))]))
  {
    hide Ascii, Key, ReadMember, ReadMembers, ReadValue, Plain, IsAscii;
    ErrorPlain();
    ErrorKey();
    ErrorLiteral();
    var m := Ascii(message);
    var last := Key(Ascii("message")) + ([QUOTE] + m + [QUOTE] + ([125] + []));
    var first := Key(Ascii("status")) + ([QUOTE] + Ascii("error") + [QUOTE] + ([COMMA] + last));
    assert ErrorText(message) == [123] + first;
    ErrorParts(first, last, message);
    StringReads(m, [125] + []);
    MemberReads(Ascii("message"), [QUOTE] + m + [QUOTE] + ([125] + []));
    LastMember(last, (Ascii("message"), Str(m)), []);
    StringReads(Ascii("error"), [COMMA] + last);
    MemberReads(Ascii("status"), [QUOTE] + Ascii("error") + [QUOTE] + ([COMMA] + last));
    assert ([COMMA] + last)[1..] == last;
    MembersRead(first, (Ascii("status"), Str(Ascii("error"))), [COMMA] + last);
    ObjectReads(first);
    assert [(Ascii("status"), Str(Ascii("error")))] + [(Ascii("message"), Str(m))]
        == [(Ascii("status"), Str(Ascii("error"))), (Ascii("message"), Str(m))];
  }
}
