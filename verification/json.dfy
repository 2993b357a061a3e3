/**
 A reader for JSON texts (RFC 8259 sections 2 to 8) over bytes. Strings are
 decoded; a number is kept as its characters.
 */
module Json {
  import opened Base

  const QUOTE: byte := 34
  const BACKSLASH: byte := 92
  const COMMA: byte := 44
  const COLON: byte := 58

  datatype Value =
    | Null
    | Bool(b: bool)
    | Num(text: bytes)
    | Str(s: bytes)
    | Arr(elems: seq<Value>)
    | Obj(members: seq<(bytes, Value)>)

  // ---- Reading ----

  // A reader gives what it read and the text after it.

  function AsStr(r: Option<(bytes, bytes)>): Option<(Value, bytes)> {
    if r.None? then None else Some((Str(r.value.0), r.value.1))
  }

  function AsArr(r: Option<(seq<Value>, bytes)>): Option<(Value, bytes)> {
    if r.None? then None else Some((Arr(r.value.0), r.value.1))
  }

  function AsObj(r: Option<(seq<(bytes, Value)>, bytes)>): Option<(Value, bytes)> {
    if r.None? then None else Some((Obj(r.value.0), r.value.1))
  }

  function Keyed(key: bytes, r: Option<(Value, bytes)>): Option<((bytes, Value), bytes)> {
    if r.None? then None else Some(((key, r.value.0), r.value.1))
  }

  function After<T>(first: seq<T>, r: Option<(seq<T>, bytes)>): Option<(seq<T>, bytes)> {
    if r.None? then None else Some((first + r.value.0, r.value.1))
  }

  /** Drops the white space of section 2. */
  function Ws(s: bytes): (r: bytes)
    ensures |r| <= |s|
    ensures r != [] ==> r[0] !in {32, 9, 10, 13}
    ensures s == [] || s[0] !in {32, 9, 10, 13} ==> r == s
  {
    if s != [] && s[0] in {32, 9, 10, 13} then Ws(s[1..]) else s
  }

  function HexDigit(b: byte): Option<nat> {
    if 48 <= b <= 57 then Some(b - 48)
    else if 65 <= b <= 70 then Some(b - 55)
    else if 97 <= b <= 102 then Some(b - 87)
    else None
  }

  /** One UTF-16 code unit as bytes; surrogates are not paired. */
  function Utf8(c: nat): (r: bytes)
    requires c < 0x1_0000
    ensures 1 <= |r| <= 3
  {
    if c < 0x80 then [c]
    else if c < 0x800 then [0xC0 + c / 64, 0x80 + c % 64]
    else [0xE0 + c / 4096, 0x80 + c / 64 % 64, 0x80 + c % 64]
  }

  /** What stands after a backslash: the decoded character and how many bytes it took. */
  function Escape(s: bytes): (r: Option<(bytes, nat)>)
    ensures r.Some? ==> 1 <= r.value.1 <= |s| && 1 <= |r.value.0| <= 3
    ensures r.Some? && r.value.1 != 1 ==> r.value.1 == 5 && forall i :: 1 <= i < 5 ==> HexDigit(s[i]).Some?
    ensures r.Some? && r.value.1 == 1 ==> |r.value.0| == 1
    ensures s != [] && s[0] == QUOTE ==> r == Some(([QUOTE], 1))
  {
    if s == [] then None
    else if s[0] in {QUOTE, BACKSLASH, 47} then Some(([s[0]], 1))
    else if s[0] == 98 then Some(([8], 1))
    else if s[0] == 102 then Some(([12], 1))
    else if s[0] == 110 then Some(([10], 1))
    else if s[0] == 114 then Some(([13], 1))
    else if s[0] == 116 then Some(([9], 1))
    else if s[0] == 117 && |s| >= 5
            && HexDigit(s[1]).Some? && HexDigit(s[2]).Some? && HexDigit(s[3]).Some? && HexDigit(s[4]).Some?
    then
      var c := HexDigit(s[1]).value * 4096 + HexDigit(s[2]).value * 256
               + HexDigit(s[3]).value * 16 + HexDigit(s[4]).value;
      Some((Utf8(c), 5))
    else None
  }

  /** Section 7, after the opening quotation mark: the string and what follows it. */
  function ReadString(s: bytes): (r: Option<(bytes, bytes)>)
    ensures r.Some? ==> |r.value.1| < |s|
  {
    if s == [] || s[0] < 32 then None
    else if s[0] == QUOTE then Some(([], s[1..]))
    else if s[0] == BACKSLASH then
      var e := Escape(s[1..]);
      if e.None? then None else After(e.value.0, ReadString(s[1 + e.value.1..]))
    else After([s[0]], ReadString(s[1..]))
  }

  predicate IsDigit(b: byte) {
    48 <= b <= 57
  }

  /** How many digits `s` starts with. */
  function DigitRun(s: bytes): (n: nat)
    ensures n <= |s|
    ensures forall i :: 0 <= i < n ==> IsDigit(s[i])
    ensures n < |s| ==> !IsDigit(s[n])
  {
    if s == [] || !IsDigit(s[0]) then 0 else 1 + DigitRun(s[1..])
  }

  /** The length of the fraction at the start of `s`: none is 0; a bare point is no number. */
  function Fraction(s: bytes): (r: Option<nat>)
    ensures r.Some? ==> r.value <= |s|
  {
    if s == [] || s[0] != 46 then Some(0)
    else if DigitRun(s[1..]) == 0 then None
    else Some(1 + DigitRun(s[1..]))
  }

  function Exponent(s: bytes): (r: Option<nat>)
    ensures r.Some? ==> r.value <= |s|
  {
    if s == [] || s[0] !in {69, 101} then Some(0)
    else
      var sign := if |s| > 1 && s[1] in {43, 45} then 1 else 0;
      var n := DigitRun(s[1 + sign..]);
      if n == 0 then None else Some(1 + sign + n)
  }

  /** Section 6: the length of the number `s` starts with. */
  function NumberLength(s: bytes): (r: Option<nat>)
    ensures r.Some? ==> 0 < r.value <= |s|
  {
    var sign := if s != [] && s[0] == 45 then 1 else 0;
    var run := DigitRun(s[sign..]);
    if run == 0 then None
    else
      var whole := sign + (if s[sign] == 48 then 1 else run);
      var f := Fraction(s[whole..]);
      if f.None? then None
      else
        var e := Exponent(s[whole + f.value..]);
        if e.None? then None else Some(whole + f.value + e.value)
  }

  /** Section 4, one member. */
  function ReadMember(text: bytes): (r: Option<((bytes, Value), bytes)>)
    ensures r.Some? ==> |r.value.1| < |text|
    decreases |text|, 3
  {
    var s := Ws(text);
    if s == [] || s[0] != QUOTE then None
    else
      var r := ReadString(s[1..]);
      if r.None? then None
      else
        var t := Ws(r.value.1);
        if t == [] || t[0] != COLON then None
        else Keyed(r.value.0, ReadValue(t[1..]))
  }

  /** Section 4, after the opening brace of an object that is not empty. */
  function ReadMembers(text: bytes): (r: Option<(seq<(bytes, Value)>, bytes)>)
    ensures r.Some? ==> |r.value.1| < |text| && r.value.0 != []
    decreases |text|, 4
  {
    var r := ReadMember(text);
    if r.None? then None
    else
      var t := Ws(r.value.1);
      if t == [] then None
      else if t[0] == 125 then Some(([r.value.0], t[1..]))
      else if t[0] != COMMA then None
      else After([r.value.0], ReadMembers(t[1..]))
  }

  /** A value and the text after it. */
  function ReadValue(text: bytes): (r: Option<(Value, bytes)>)
    ensures r.Some? ==> |r.value.1| < |text|
    decreases |text|, 2
  {
    var s := Ws(text);
    if s == [] then None
    else if s[0] == QUOTE then AsStr(ReadString(s[1..]))
    else if s[0] == 91 then
      var t := Ws(s[1..]);
      if t != [] && t[0] == 93 then Some((Arr([]), t[1..]))
      else AsArr(ReadElements(s[1..]))
    else if s[0] == 123 then
      var t := Ws(s[1..]);
      if t != [] && t[0] == 125 then Some((Obj([]), t[1..]))
      else AsObj(ReadMembers(s[1..]))
    else if Ascii("true") <= s then Some((Bool(true), s[4..]))
    else if Ascii("false") <= s then Some((Bool(false), s[5..]))
    else if Ascii("null") <= s then Some((Null, s[4..]))
    else
      var n := NumberLength(s);
      if n.None? then None else Some((Num(s[..n.value]), s[n.value..]))
  }

  /** Section 5, after the opening bracket of an array that is not empty. */
  function ReadElements(text: bytes): (r: Option<(seq<Value>, bytes)>)
    ensures r.Some? ==> |r.value.1| < |text| && r.value.0 != []
    decreases |text|, 3
  {
    var r := ReadValue(text);
    if r.None? then None
    else
      var t := Ws(r.value.1);
      if t == [] then None
      else if t[0] == 93 then Some(([r.value.0], t[1..]))
      else if t[0] != COMMA then None
      else After([r.value.0], ReadElements(t[1..]))
  }

  // ---- UTF-8 ----

  predicate IsTail(s: bytes, i: nat, low: byte, high: byte) {
    i < |s| && low <= s[i] <= high
  }

  /** The length of the character `s` starts with, by the syntax of section 4 of RFC 3629; 0 if there is none. */
  function CharLength(s: bytes): (n: nat)
    ensures n <= |s|
  {
    if s == [] then 0
    else
      var b := s[0];
      if b < 0x80 then 1
      else if 0xC2 <= b <= 0xDF && IsTail(s, 1, 0x80, 0xBF) then 2
      else if 0xE0 <= b <= 0xEF
              && IsTail(s, 1, if b == 0xE0 then 0xA0 else 0x80, if b == 0xED then 0x9F else 0xBF)
              && IsTail(s, 2, 0x80, 0xBF) then 3
      else if 0xF0 <= b <= 0xF4
              && IsTail(s, 1, if b == 0xF0 then 0x90 else 0x80, if b == 0xF4 then 0x8F else 0xBF)
              && IsTail(s, 2, 0x80, 0xBF) && IsTail(s, 3, 0x80, 0xBF) then 4
      else 0
  }

  predicate IsUtf8(s: bytes) {
    s == [] || (CharLength(s) > 0 && IsUtf8(s[CharLength(s)..]))
  }

  predicate IsAscii(s: bytes) {
    forall i :: 0 <= i < |s| ==> s[i] < 0x80
  }

  lemma CharLengthSame(s: bytes, rest: bytes)
    requires s != [] && (rest == [] || rest[0] < 0x80)
    ensures CharLength(s + rest) == CharLength(s)
  {
    var t := s + rest;
    assert t[0] == s[0];
    assert forall i :: 0 <= i < |s| ==> t[i] == s[i];
    assert rest != [] ==> t[|s|] == rest[0];
  }

  /** Before ASCII text, a string is UTF-8 or not on its own. */
  lemma {:induction false} Utf8Before(s: bytes, rest: bytes)
    requires rest == [] || rest[0] < 0x80
    ensures IsUtf8(s + rest) <==> IsUtf8(s) && IsUtf8(rest)
    decreases |s|
  {
    if s == [] {
      assert s + rest == rest;
    } else {
      CharLengthSame(s, rest);
      var n := CharLength(s);
      if n > 0 {
        assert (s + rest)[n..] == s[n..] + rest;
        Utf8Before(s[n..], rest);
      }
    }
  }

  lemma {:induction false} Utf8After(s: bytes, rest: bytes)
    requires IsAscii(s)
    ensures IsUtf8(s + rest) <==> IsUtf8(rest)
  {
    if s == [] {
      assert s + rest == rest;
    } else {
      assert (s + rest)[1..] == s[1..] + rest;
      Utf8After(s[1..], rest);
    }
  }

  predicate Continues(b: byte) {
    0x80 <= b <= 0xBF
  }

  /** A character that is cut off is none. */
  lemma CharLengthTake(s: bytes, k: nat)
    requires 0 < k <= |s|
    ensures CharLength(s[..k]) == if CharLength(s) <= k then CharLength(s) else 0
    ensures 0 < k < CharLength(s) ==> Continues(s[k])
    ensures CharLength(s) > 0 ==> !Continues(s[0])
  {
    assert forall i :: 0 <= i < k ==> s[..k][i] == s[i];
  }

  /** Cutting UTF-8 leaves UTF-8 exactly if the cut is not inside a character. */
  lemma {:induction false} Utf8Take(s: bytes, k: nat)
    requires IsUtf8(s) && k < |s|
    ensures IsUtf8(s[..k]) <==> !Continues(s[k])
    decreases |s|
  {
    var n := CharLength(s);
    if k == 0 {
      CharLengthTake(s, 1);
    } else {
      CharLengthTake(s, k);
      if k >= n {
        assert s[..k][n..] == s[n..][..k - n];
        if k == n {
          if s[n..] != [] {
            Utf8Take(s[n..], 0);
          }
        } else {
          Utf8Take(s[n..], k - n);
        }
      }
    }
  }

  /** A JSON text (section 8.1): in UTF-8, one value with nothing but white space around it. */
  function Read(text: bytes): Option<Value> {
    var r := ReadValue(text);
    if IsUtf8(text) && r.Some? && Ws(r.value.1) == [] then Some(r.value.0) else None
  }

  // ---- Strings ----

  /** No quotation mark, backslash or control character. */
  predicate Plain(s: bytes) {
    forall i :: 0 <= i < |s| ==> s[i] >= 32 && s[i] != QUOTE && s[i] != BACKSLASH
  }

  lemma {:induction false} PlainReads(s: bytes, rest: bytes)
    requires Plain(s)
    ensures ReadString(s + [QUOTE] + rest) == Some((s, rest))
  {
    var text := s + [QUOTE] + rest;
    if s == [] {
      assert text[1..] == rest;
    } else {
      assert text[0] == s[0] && text[1..] == s[1..] + [QUOTE] + rest;
      PlainReads(s[1..], rest);
      assert s == [s[0]] + s[1..];
    }
  }

  /** What is read for `s` is shorter, or does not end in the backslash `s` ends in. */
  predicate Misread(s: bytes, r: Option<(bytes, bytes)>) {
    r.Some? ==>
      || |r.value.0| < |s|
      || (s != [] && s[|s| - 1] == BACKSLASH && r.value.0 != [] && r.value.0[|r.value.0| - 1] != BACKSLASH)
  }

  lemma MisreadAfter(s: bytes, first: bytes, n: nat, r: Option<(bytes, bytes)>)
    requires n < |s| && |first| <= n && Misread(s[n..], r)
    ensures Misread(s, After(first, r))
  {
  }

  lemma MisreadTells(s: bytes, r: Option<(bytes, bytes)>)
    requires Misread(s, r)
    ensures r.Some? ==> r.value.0 != s
  {
  }

  lemma PlainEmpty()
    ensures Plain([])
  {
  }

  lemma DropText(s: bytes, next: bytes, n: nat)
    requires n <= |s|
    ensures (s + [QUOTE] + next)[n..] == s[n..] + [QUOTE] + next
  {
  }

  lemma MisreadNothing(s: bytes)
    ensures Misread(s, None)
  {
  }

  lemma MisreadBackslash(s: bytes, sep: byte, rest: bytes)
    requires s == [BACKSLASH] && sep != BACKSLASH
    ensures Misread(s, Some(([QUOTE, sep], rest)))
  {
  }

  lemma PlainHead(s: bytes)
    requires s != [] && !Plain(s) && s[0] >= 32 && s[0] != QUOTE && s[0] != BACKSLASH
    ensures s[1..] != [] && !Plain(s[1..])
  {
    assert s == [s[0]] + s[1..];
  }

  lemma StringUnfolds(s: bytes)
    requires s != []
    ensures s[0] < 32 ==> ReadString(s).None?
    ensures s[0] == QUOTE ==> ReadString(s) == Some(([], s[1..]))
    ensures s[0] == BACKSLASH ==>
              var e := Escape(s[1..]);
              ReadString(s) == if e.None? then None else After(e.value.0, ReadString(s[1 + e.value.1..]))
    ensures s[0] >= 32 && s[0] != QUOTE && s[0] != BACKSLASH ==>
              ReadString(s) == After([s[0]], ReadString(s[1..]))
  {
    hide Escape;
  }

  /** A final backslash turns the closing quotation mark into a character. */
  lemma LoneBackslash(text: bytes, sep: byte, rest: bytes)
    requires text == [BACKSLASH] + ([QUOTE] + ([sep, QUOTE] + rest)) && Plain([sep])
    ensures ReadString(text) == Some(([QUOTE, sep], rest))
  {
    assert text[1..][0] == QUOTE;
    assert text[2..] == [sep] + [QUOTE] + rest;
    PlainReads([sep], rest);
    assert [QUOTE] + [sep] == [QUOTE, sep];
  }

  /** An escape that starts before the last byte of the string does not reach past the string. */
  lemma EscapeInside(s: bytes, text: bytes, n: nat)
    requires |s| > 1 && s + [QUOTE] <= text && Escape(text[1..]).Some? && Escape(text[1..]).value.1 == n
    ensures 1 + n <= |s|
  {
    assert text[1..][|s| - 1] == text[|s|] == QUOTE;
    assert HexDigit(QUOTE).None?;
  }

  /** A string printed without escaping, in a place where `,"` or `:"` follows it, is misread unless it is plain. */
  lemma {:induction false} UnescapedReads(s: bytes, sep: byte, rest: bytes)
    requires !Plain(s) && Plain([sep])
    ensures Misread(s, ReadString(s + [QUOTE] + ([sep, QUOTE] + rest)))
    decreases |s|
  {
    var next := [sep, QUOTE] + rest;
    var text := s + [QUOTE] + next;
    StringUnfolds(text);
    assert text[0] == s[0];
    if s[0] >= 32 && s[0] != QUOTE {
      hide ReadString, Escape, Plain, Misread, After;
      if s[0] != BACKSLASH {
        PlainHead(s);
        DropText(s, next, 1);
        UnescapedReads(s[1..], sep, rest);
        MisreadAfter(s, [s[0]], 1, ReadString(text[1..]));
      } else if |s| == 1 {
        assert text == [BACKSLASH] + ([QUOTE] + next);
        LoneBackslash(text, sep, rest);
        MisreadBackslash(s, sep, rest);
      } else if Escape(text[1..]).Some? {
        var (c, n) := Escape(text[1..]).value;
        assert s + [QUOTE] <= text;
        EscapeInside(s, text, n);
        EscapedReads(s, c, 1 + n, sep, rest);
        DropText(s, next, 1 + n);
      } else {
        MisreadNothing(s);
      }
    }
  }

  /** The rest of a string after an escape. */
  lemma {:induction false} EscapedReads(s: bytes, c: bytes, n: nat, sep: byte, rest: bytes)
    requires 0 < n <= |s| && |c| < n && Plain([sep])
    ensures Misread(s, After(c, ReadString(s[n..] + [QUOTE] + ([sep, QUOTE] + rest))))
    decreases |s|, 0
  {
    var left := s[n..];
    if Plain(left) {
      PlainReads(left, [sep, QUOTE] + rest);
    } else {
      PlainEmpty();
      UnescapedReads(left, sep, rest);
      MisreadAfter(s, c, n, ReadString(left + [QUOTE] + ([sep, QUOTE] + rest)));
    }
  }

  lemma SeparatorsPlain()
    ensures Plain([COMMA]) && Plain([COLON])
  {
  }

  // ---- Composing texts ----

  lemma StringReads(s: bytes, rest: bytes)
    requires Plain(s)
    ensures ReadValue([QUOTE] + s + [QUOTE] + rest) == Some((Str(s), rest))
  {
    PlainReads(s, rest);
    var text := [QUOTE] + s + [QUOTE] + rest;
    assert text[1..] == s + [QUOTE] + rest;
  }

  function Key(key: bytes): bytes {
    [QUOTE] + key + [QUOTE, COLON]
  }

  lemma MemberUnfolds(text: bytes, key: bytes, rest: bytes)
    requires text != [] && text[0] == QUOTE && ReadString(text[1..]) == Some((key, [COLON] + rest))
    ensures ReadMember(text) == Keyed(key, ReadValue(rest))
  {
    hide ReadValue, ReadString;
    assert Ws(text) == text;
    assert Ws([COLON] + rest) == [COLON] + rest && ([COLON] + rest)[1..] == rest;
  }

  /** A member with a plain key is its key and whatever its value text reads as. */
  lemma MemberReads(key: bytes, value: bytes)
    requires Plain(key)
    ensures ReadMember(Key(key) + value) == Keyed(key, ReadValue(value))
  {
    hide ReadValue, ReadString, ReadMember, Plain;
    var text := Key(key) + value;
    PlainReads(key, [COLON] + value);
    assert text[1..] == key + [QUOTE] + ([COLON] + value);
    MemberUnfolds(text, key, value);
  }

  lemma MembersRead(text: bytes, m: (bytes, Value), rest: bytes)
    requires ReadMember(text) == Some((m, rest)) && rest != [] && rest[0] in {COMMA, 125}
    ensures ReadMembers(text) ==
            if rest[0] == 125 then Some(([m], rest[1..]))
            else After([m], ReadMembers(rest[1..]))
  {
  }

  lemma ObjectReads(text: bytes)
    requires text != [] && text[0] == QUOTE
    ensures ReadValue([123] + text) == AsObj(ReadMembers(text))
  {
    assert ([123] + text)[1..] == text;
  }

  lemma ArrayReads(text: bytes)
    requires text != [] && text[0] == 123
    ensures ReadValue([91] + text) == AsArr(ReadElements(text))
  {
    assert ([91] + text)[1..] == text;
  }

  lemma ElementsRead(text: bytes, v: Value, rest: bytes)
    requires ReadValue(text) == Some((v, rest)) && rest != [] && rest[0] in {COMMA, 93}
    ensures ReadElements(text) ==
            if rest[0] == 93 then Some(([v], rest[1..])) else After([v], ReadElements(rest[1..]))
  {
  }

  lemma FirstElement(text: bytes)
    requires ReadElements(text).Some?
    ensures ReadValue(text).Some? && ReadElements(text).value.0[0] == ReadValue(text).value.0
  {
  }

  lemma LastMember(text: bytes, m: (bytes, Value), rest: bytes)
    requires ReadMember(text) == Some((m, [125] + rest))
    ensures ReadMembers(text) == Some(([m], rest))
  {
    assert ([125] + rest)[1..] == rest;
  }

  lemma FirstMember(text: bytes)
    requires ReadMembers(text).Some?
    ensures ReadMember(text).Some? && ReadMembers(text).value.0[0] == ReadMember(text).value.0
  {
  }

  lemma Appended<T>(v: seq<T>, r: Option<(seq<T>, bytes)>, vs: seq<T>, rest: bytes)
    requires |v| == 1
    ensures r == Some((vs, rest)) ==> After(v, r) == Some((v + vs, rest))
    ensures After(v, r).Some? && After(v, r).value.0 == v + vs ==> r.Some? && r.value.0 == vs
  {
    if r.Some? && v + r.value.0 == v + vs {
      assert (v + vs)[1..] == vs && (v + r.value.0)[1..] == r.value.0;
    }
  }

  lemma MemberKey(text: bytes)
    requires text != [] && text[0] == QUOTE && ReadMember(text).Some?
    ensures ReadString(text[1..]).Some? && ReadMember(text).value.0.0 == ReadString(text[1..]).value.0
  {
    assert Ws(text) == text;
  }
}
