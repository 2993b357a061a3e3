/** The builder of the /getData response. */
module GetData {
  import opened Base
  import opened CStr
  import opened Json
  import opened Numerals

  const RESPONSE_SIZE := 3072
  const FIELD_SIZE := 256
  /** The longest key string a 255-byte request body can carry: `{"key":""}` takes ten bytes of it. */
  const KEY_LIMIT := 245

  /** What the handler's calls into other components give while one token is handled. */
  datatype Env = Env(ssid: CString, temperature: nat, humidity: nat, utc: CString, here: CString,
                     buildTime: CString, buildDate: CString, status: nat)

  /** The sizes the callees promise. */
  predicate Sane(e: Env) {
    && |e.ssid| <= 32 && e.temperature < 100 && e.humidity < 100 && |e.utc| <= 19 && |e.here| <= 19
    && |e.buildTime| == 8 && |e.buildDate| == 11 && e.status <= 4
  }

  predicate AllSane(envs: seq<Env>) {
    forall i :: 0 <= i < |envs| ==> Sane(envs[i])
  }

  // ---- Tokens ----

  /** How many bytes of `s` stand before its first comma. */
  function CommaFree(s: bytes): (n: nat)
    ensures n <= |s| && COMMA !in s[..n]
    ensures n < |s| ==> s[n] == COMMA
  {
    if s == [] || s[0] == COMMA then 0 else
      var n := CommaFree(s[1..]);
      assert s[..n + 1] == [s[0]] + s[1..][..n];
      1 + n
  }

  /** The runs between commas that are not empty. */
  function Tokens(s: bytes): seq<bytes> {
    if s == [] then []
    else if s[0] == COMMA then Tokens(s[1..])
    else [s[..CommaFree(s)]] + Tokens(s[CommaFree(s)..])
  }

  /** No token is empty or holds a comma. */
  lemma {:induction false} TokensAreRuns(s: bytes)
    ensures forall t :: t in Tokens(s) ==> t != [] && COMMA !in t && (forall b :: b in t ==> b in s)
    decreases |s|
  {
    if s == [] {
    } else {
      TokensAreRuns(if s[0] == COMMA then s[1..] else s[CommaFree(s)..]);
    }
  }

  function JoinCommas(parts: seq<bytes>): bytes {
    if parts == [] then []
    else if |parts| == 1 then parts[0]
    else parts[0] + [COMMA] + JoinCommas(parts[1..])
  }

  lemma {:induction false} RunOf(t: bytes, rest: bytes)
    requires COMMA !in t && (rest != [] ==> rest[0] == COMMA)
    ensures CommaFree(t + rest) == |t|
  {
    if t == [] {
      assert t + rest == rest;
    } else {
      assert (t + rest)[1..] == t[1..] + rest;
      RunOf(t[1..], rest);
    }
  }

  /** Joining the tokens again loses nothing but empty runs. */
  lemma {:induction false} TokensOfJoined(parts: seq<bytes>)
    requires forall t :: t in parts ==> t != [] && COMMA !in t
    ensures Tokens(JoinCommas(parts)) == parts
  {
    if parts == [] {
    } else {
      var s, t := JoinCommas(parts), parts[0];
      var rest := if |parts| == 1 then [] else [COMMA] + JoinCommas(parts[1..]);
      assert s == t + rest;
      RunOf(t, rest);
      assert s[0] == t[0] && s[..|t|] == t && s[|t|..] == rest;
      if |parts| > 1 {
        assert forall u :: u in parts[1..] ==> u in parts;
        TokensOfJoined(parts[1..]);
        assert rest[1..] == JoinCommas(parts[1..]);
      }
      assert parts == [t] + parts[1..];
    }
  }

  lemma SkipComma(s: bytes, at: nat)
    requires at < |s| && s[at] == COMMA
    ensures Tokens(s[at..]) == Tokens(s[at + 1..])
  {
    assert s[at..][1..] == s[at + 1..];
  }

  lemma TokensUnfold(t: bytes, rest: bytes)
    requires t != [] && t[0] != COMMA && CommaFree(t + rest) == |t|
    ensures Tokens(t + rest) == [t] + Tokens(rest)
  {
    hide CommaFree;
    assert (t + rest)[0] == t[0] && (t + rest)[..|t|] == t && (t + rest)[|t|..] == rest;
  }

  lemma TakeToken(s: bytes, start: nat, end: nat)
    requires start < end <= |s| && COMMA !in s[start..end] && (end < |s| ==> s[end] == COMMA)
    ensures Tokens(s[start..]) == [s[start..end]] + Tokens(s[end..])
  {
    hide Tokens;
    var t, rest := s[start..end], s[end..];
    assert s[start..] == t + rest;
    RunOf(t, rest);
    TokensUnfold(t, rest);
  }

  lemma NoTokens()
    ensures Tokens([]) == []
  {
  }

  lemma SkipHead(s: bytes)
    ensures Tokens([COMMA] + s) == Tokens(s)
  {
    assert ([COMMA] + s)[1..] == s;
  }

  lemma TakeHead(run: bytes, rest: bytes)
    requires run != [] && COMMA !in run && (rest != [] ==> rest[0] == COMMA)
    ensures Tokens(run + rest) == [run] + Tokens(rest)
  {
    hide Tokens;
    RunOf(run, rest);
    TokensUnfold(run, rest);
  }

  /** A comma separates: what stands before it and behind it is split on its own. */
  lemma {:induction false} TokensSplit(s: bytes, t: bytes)
    ensures Tokens(s + [COMMA] + t) == Tokens(s) + Tokens(t)
    decreases |s|
  {
    hide Tokens;
    if s == [] {
      assert s + [COMMA] + t == [COMMA] + t;
      SkipHead(t);
      NoTokens();
    } else if s[0] == COMMA {
      var rest := s[1..];
      assert s == [COMMA] + rest && s + [COMMA] + t == [COMMA] + (rest + [COMMA] + t);
      SkipHead(rest);
      SkipHead(rest + [COMMA] + t);
      TokensSplit(rest, t);
    } else {
      var n := CommaFree(s);
      var run, rest := s[..n], s[n..];
      assert s == run + rest && s + [COMMA] + t == run + (rest + [COMMA] + t);
      TakeHead(run, rest);
      TakeHead(run, rest + [COMMA] + t);
      TokensSplit(rest, t);
    }
  }

  lemma OneToken(t: bytes)
    requires COMMA !in t
    ensures Tokens(t) == if t == [] then [] else [t]
  {
    if t != [] {
      RunOf(t, []);
      assert t + [] == t;
      TokensUnfold(t, []);
    }
  }

  /** strtok, given the position it remembers: the next token and the position to remember. */
  method StrTok(s: bytes, from: nat) returns (token: Option<bytes>, next: nat)
    requires from <= |s|
    ensures from <= next <= |s| && (token.Some? ==> from < next)
    ensures Tokens(s[from..]) == if token.None? then [] else [token.value] + Tokens(s[next..])
  {
    hide Tokens;
    var start := from;
    while start < |s| && s[start] == COMMA
      invariant from <= start <= |s| && Tokens(s[from..]) == Tokens(s[start..])
    {
      SkipComma(s, start);
      start := start + 1;
    }
    if start == |s| {
      assert s[start..] == [];
      NoTokens();
      return None, start;
    }
    var end := start + 1;
    while end < |s| && s[end] != COMMA
      invariant start < end <= |s| && COMMA !in s[start..end]
    {
      end := end + 1;
    }
    TakeToken(s, start, end);
    token, next := Some(s[start..end]), end;
    if end < |s| {
      SkipComma(s, end);
      next := end + 1;
    }
  }

  // ---- Fields ----

  /** The name and the value the response gives for a token: the first keyword it contains decides. */
  function Pair(token: bytes, e: Env): (bytes, bytes) {
    if Contains(token, Ascii("SSID")) then (Ascii("SSID"), e.ssid)
    else if Contains(token, Ascii("Temp")) then (Ascii("Temp"), Dec(e.temperature))
    else if Contains(token, Ascii("Humidity")) then (Ascii("Humidity"), Dec(e.humidity))
    else if Contains(token, Ascii("UTC")) then (Ascii("UTC"), e.utc)
    else if Contains(token, Ascii("Local")) then (Ascii("Local"), e.here)
    else if Contains(token, Ascii("CompileTime")) then (Ascii("CompileTime"), e.buildTime)
    else if Contains(token, Ascii("CompileDate")) then (Ascii("CompileDate"), e.buildDate)
    else if Contains(token, Ascii("FirmwareVersion")) then (Ascii("FirmwareVersion"), Ascii("V1.0.0"))
    else if Contains(token, Ascii("WiFiStatus")) then (Ascii("WiFiStatus"), Dec(e.status))
    else (token, [])
  }

  function Field(token: bytes, e: Env): bytes {
    var (name, value) := Pair(token, e);
    Key(name) + ([QUOTE] + value + [QUOTE])
  }

  function Fields(tokens: seq<bytes>, envs: seq<Env>): (r: seq<bytes>)
    requires |tokens| <= |envs|
    ensures |r| == |tokens|
  {
    seq(|tokens|, i requires 0 <= i < |tokens| => Field(tokens[i], envs[i]))
  }

  function Response(key: bytes, envs: seq<Env>): bytes
    requires |Tokens(key)| <= |envs|
  {
    [123] + JoinCommas(Fields(Tokens(key), envs)) + [125]
  }

  // ---- Lengths ----

  lemma ContainsLength(s: bytes, pattern: bytes)
    ensures Contains(s, pattern) ==> |pattern| <= |s|
  {
  }

  /** A field with its comma takes at most nine times what its token takes with its own. */
  lemma FieldBound(token: bytes, e: Env)
    requires Sane(e) && token != []
    ensures |Field(token, e)| + 1 <= 9 * (|token| + 1)
    ensures |token| <= 245 ==> |Field(token, e)| < 256
  {
    hide Contains, Ascii, Dec;
    ContainsLength(token, Ascii("SSID"));
    ContainsLength(token, Ascii("Temp"));
    ContainsLength(token, Ascii("Humidity"));
    ContainsLength(token, Ascii("UTC"));
    ContainsLength(token, Ascii("Local"));
    ContainsLength(token, Ascii("CompileTime"));
    ContainsLength(token, Ascii("CompileDate"));
    ContainsLength(token, Ascii("FirmwareVersion"));
    ContainsLength(token, Ascii("WiFiStatus"));
    DecLengths(e.temperature);
    DecLengths(e.humidity);
    DecLengths(e.status);
    assert |Ascii("SSID")| == |Ascii("Temp")| == 4 && |Ascii("Humidity")| == 8 && |Ascii("UTC")| == 3;
    assert |Ascii("Local")| == 5 && |Ascii("CompileTime")| == |Ascii("CompileDate")| == 11;
    assert |Ascii("FirmwareVersion")| == 15 && |Ascii("V1.0.0")| == 6 && |Ascii("WiFiStatus")| == 10;
  }

  function Total(parts: seq<bytes>): nat {
    if parts == [] then 0 else |parts[0]| + 1 + Total(parts[1..])
  }

  lemma {:induction false} JoinedLength(parts: seq<bytes>)
    ensures |JoinCommas(parts)| == if parts == [] then 0 else Total(parts) - 1
  {
    if |parts| <= 1 {
    } else {
      JoinedLength(parts[1..]);
    }
  }

  lemma {:induction false} TokensTotal(s: bytes)
    ensures Total(Tokens(s)) <= |s| + 1
    ensures Tokens(s) != [] && s[|s| - 1] == COMMA ==> Total(Tokens(s)) <= |s|
    decreases |s|
  {
    if s == [] {
    } else {
      var n := CommaFree(s);
      if n == 0 {
        TokensTotal(s[1..]);
      } else if n < |s| {
        TokensTotal(s[n..][1..]);
        assert Tokens(s)[1..] == Tokens(s[n..]) == Tokens(s[n..][1..]);
      }
    }
  }

  lemma {:induction false} FieldsBound(tokens: seq<bytes>, envs: seq<Env>)
    requires |tokens| <= |envs| && AllSane(envs) && [] !in tokens
    ensures Total(Fields(tokens, envs)) <= 9 * Total(tokens)
  {
    hide Field;
    if tokens == [] {
    } else {
      var fs := Fields(tokens, envs);
      assert fs[0] == Field(tokens[0], envs[0]) && fs[1..] == Fields(tokens[1..], envs[1..]);
      FieldBound(tokens[0], envs[0]);
      FieldsBound(tokens[1..], envs[1..]);
    }
  }

  /** The response is at most nine times the key string and ten bytes more, so it fits. */
  lemma ResponseFits(key: bytes, envs: seq<Env>)
    requires |Tokens(key)| <= |envs| && AllSane(envs)
    ensures |Response(key, envs)| <= 9 * |key| + 10
    ensures |key| <= 245 ==> |Response(key, envs)| < 3072
  {
    hide Fields, Tokens, Total, JoinCommas;
    var tokens := Tokens(key);
    TokensAreRuns(key);
    FieldsBound(tokens, envs);
    TokensTotal(key);
    JoinedLength(Fields(tokens, envs));
  }

  // ---- The handler ----

  lemma JoinUnfolds(parts: seq<bytes>)
    requires parts != []
    ensures JoinCommas(parts) == if |parts| == 1 then parts[0] else parts[0] + [COMMA] + JoinCommas(parts[1..])
  {
  }

  lemma Regroup(a: bytes, b: bytes, c: bytes)
    ensures a + [COMMA] + (b + [COMMA] + c) == a + [COMMA] + b + [COMMA] + c
  {
  }

  lemma {:induction false} JoinAppend(parts: seq<bytes>, part: bytes)
    ensures JoinCommas(parts + [part]) == JoinCommas(parts) + (if parts == [] then [] else [COMMA]) + part
  {
    if parts == [] {
      assert parts + [part] == [part];
    } else {
      var rest := parts[1..];
      assert (parts + [part])[0] == parts[0] && (parts + [part])[1..] == rest + [part];
      JoinAppend(rest, part);
      JoinUnfolds(parts);
      JoinUnfolds(parts + [part]);
      if rest != [] {
        Regroup(parts[0], JoinCommas(rest), part);
      } else {
        assert parts[0] + [COMMA] + ([] + [] + part) == parts[0] + [COMMA] + part;
      }
    }
  }

  lemma {:induction false} JoinedGrows(parts: seq<bytes>, n: nat)
    requires n <= |parts|
    ensures |JoinCommas(parts[..n])| <= |JoinCommas(parts)|
    decreases |parts| - n
  {
    if n < |parts| {
      JoinedGrows(parts, n + 1);
      JoinAppend(parts[..n], parts[n]);
      assert parts[..n + 1] == parts[..n] + [parts[n]];
    } else {
      assert parts[..n] == parts;
    }
  }

  lemma AsciiPlain(s: string)
    requires forall i :: 0 <= i < |s| ==> 32 <= s[i] as int < 0x80 && s[i] != '\"' && s[i] != '\\'
    ensures Plain(Ascii(s))
  {
  }

  lemma LiteralsPlain()
    ensures Plain(Ascii("SSID")) && Plain(Ascii("Temp")) && Plain(Ascii("Humidity")) && Plain(Ascii("UTC"))
    ensures Plain(Ascii("Local")) && Plain(Ascii("CompileTime")) && Plain(Ascii("CompileDate"))
    ensures Plain(Ascii("FirmwareVersion")) && Plain(Ascii("V1.0.0")) && Plain(Ascii("WiFiStatus"))
  {
    hide Ascii, Plain;
    AsciiPlain("SSID");
    AsciiPlain("Temp");
    AsciiPlain("Humidity");
    AsciiPlain("UTC");
    AsciiPlain("Local");
    AsciiPlain("CompileTime");
    AsciiPlain("CompileDate");
    AsciiPlain("FirmwareVersion");
    AsciiPlain("V1.0.0");
    AsciiPlain("WiFiStatus");
  }

  lemma PlainIsCString(s: bytes)
    ensures Plain(s) ==> 0 !in s
  {
  }

  /** What is printed is a keyword with its value, or the token. */
  lemma PairIsSafe(token: bytes, e: Env)
    ensures var (name, value) := Pair(token, e);
            && (name == token || Plain(name))
            && (value in {e.ssid, e.utc, e.here, e.buildTime, e.buildDate} || Plain(value))
  {
    hide Contains, Ascii;
    LiteralsPlain();
  }

  lemma FieldIsCString(token: CString, e: Env)
    ensures 0 !in Field(token, e)
  {
    hide Pair, Plain;
    PairIsSafe(token, e);
    PlainIsCString(Pair(token, e).0);
    PlainIsCString(Pair(token, e).1);
  }

  /** get_data_rsp_string: the field as a C string in the temporary buffer, not cut off. */
  method RspString(token: CString, e: Env, temp: array<byte>)
    requires temp.Length == 256 && Sane(e) && token != [] && |token| <= 245
    modifies temp
    ensures UpToNul(temp[..]) == Field(token, e)
  {
    hide Field, UpToNul;
    ghost var field := Field(token, e);
    FieldBound(token, e);
    FieldIsCString(token, e);
    var n := Snprintf(temp, 0, temp.Length, Field(token, e));
    ghost var tail := old(temp[|field| + 1..]);
    assert temp[..] == field + ([0] + tail);
    UpToNulStops(field, [0] + tail);
  }

  lemma NextPart(all: seq<bytes>, i: nat)
    requires i < |all|
    ensures [123] + JoinCommas(all[..i + 1])
         == [123] + JoinCommas(all[..i]) + ((if i > 0 then [COMMA] else []) + all[i])
    ensures |JoinCommas(all[..i + 1])| <= |JoinCommas(all)|
  {
    hide JoinCommas;
    JoinAppend(all[..i], all[i]);
    assert all[..i + 1] == all[..i] + [all[i]];
    JoinedGrows(all, i + 1);
  }

  lemma JoinNothing(parts: seq<bytes>)
    ensures JoinCommas(parts[..0]) == []
  {
  }

  lemma FieldAt(tokens: seq<bytes>, envs: seq<Env>, i: nat)
    requires i < |tokens| <= |envs|
    ensures Fields(tokens, envs)[i] == Field(tokens[i], envs[i])
  {
  }

  lemma {:induction false} TokenLength(s: bytes, token: bytes)
    requires token in Tokens(s)
    ensures |token| <= |s|
    decreases |s|
  {
    if s[0] == COMMA {
      TokenLength(s[1..], token);
    } else if token != s[..CommaFree(s)] {
      TokenLength(s[CommaFree(s)..], token);
    }
  }

  lemma TokenAt(key: CString, token: bytes, i: nat, next: nat)
    requires i <= |Tokens(key)| && next <= |key| && Tokens(key)[i..] == [token] + Tokens(key[next..])
    ensures i < |Tokens(key)| && Tokens(key)[i] == token && token != [] && |token| <= |key| && 0 !in token
    ensures Tokens(key)[i + 1..] == Tokens(key[next..])
  {
    hide Tokens;
    TokensAreRuns(key);
    assert Tokens(key)[i..][0] == token && Tokens(key)[i..][1..] == Tokens(key)[i + 1..];
    TokenLength(key, token);
  }

  /** The text in the buffer is the response, followed by zeros, and its length is what is sent. */
  method BuildResponse(key: CString, envs: seq<Env>, buffer: array<byte>) returns (length: nat)
    requires |key| <= 245 && |Tokens(key)| <= |envs| && AllSane(envs) && buffer.Length == 3072
    modifies buffer
    ensures length == |Response(key, envs)| < 3072
    ensures buffer[..] == Response(key, envs) + Zeros(3072 - length)
  {
    hide Tokens, Fields, JoinCommas, UpToNul, Field, Zeros, Sane;
    ghost var all := Fields(Tokens(key), envs);
    ResponseFits(key, envs);
    forall i | 0 <= i < buffer.Length {
      buffer[i] := 0;
    }
    assert buffer[..] == [] + Zeros(buffer.Length - 0);
    length := Append(buffer, [], 0, [123]);
    var temp := new byte[FIELD_SIZE];
    var token, next := StrTok(key, 0);
    assert key[0..] == key;
    var isComma, i := false, 0;
    JoinNothing(all);
    while token.Some?
      invariant next <= |key| && i <= |all| && isComma == (i > 0)
      invariant Tokens(key)[i..] == if token.None? then [] else [token.value] + Tokens(key[next..])
      invariant length == |[123] + JoinCommas(all[..i])| < RESPONSE_SIZE
      invariant buffer[..] == [123] + JoinCommas(all[..i]) + Zeros(RESPONSE_SIZE - length)
      decreases token.Some?, |key| - next
    {
      TokenAt(key, token.value, i, next);
      RspString(token.value, envs[i], temp);
      FieldAt(Tokens(key), envs, i);
      NextPart(all, i);
      var text := (if isComma then [COMMA] else []) + UpToNul(temp[..]);
      var n := Append(buffer, [123] + JoinCommas(all[..i]), length, text);
      length := length + n;
      isComma, i := true, i + 1;
      token, next := StrTok(key, next);
    }
    assert all[..i] == all;
    var n := Append(buffer, [123] + JoinCommas(all), length, [125]);
    length := length + n;
  }

  // ---- Reading the response ----

  function Member(token: bytes, e: Env): (bytes, Value) {
    var (name, value) := Pair(token, e);
    (name, Str(value))
  }

  function Members(tokens: seq<bytes>, envs: seq<Env>): (r: seq<(bytes, Value)>)
    requires |tokens| <= |envs|
  {
    if tokens == [] then [] else [Member(tokens[0], envs[0])] + Members(tokens[1..], envs[1..])
  }

  predicate PlainEnv(e: Env) {
    && IsUtf8(e.ssid) && IsUtf8(e.utc) && IsUtf8(e.here) && IsUtf8(e.buildTime) && IsUtf8(e.buildDate)
    && Plain(e.ssid) && Plain(e.utc) && Plain(e.here) && Plain(e.buildTime) && Plain(e.buildDate)
  }

  predicate AllPlainEnvs(envs: seq<Env>) {
    forall i :: 0 <= i < |envs| ==> PlainEnv(envs[i])
  }

  /** No token is printed that needs escaping: it is plain, or it contains a keyword. */
  predicate NamesPlain(tokens: seq<bytes>, envs: seq<Env>)
    requires |tokens| <= |envs|
  {
    forall i :: 0 <= i < |tokens| ==> Plain(Pair(tokens[i], envs[i]).0)
  }

  lemma FieldText(token: bytes, e: Env, rest: bytes)
    ensures var (name, value) := Pair(token, e);
            && Field(token, e) + rest == Key(name) + ([QUOTE] + value + [QUOTE] + rest)
            && (Field(token, e) + rest)[0] == QUOTE
            && (Field(token, e) + rest)[1..] == name + [QUOTE] + ([COLON, QUOTE] + (value + [QUOTE] + rest))
  {
    hide Pair;
  }

  lemma FieldReads(token: bytes, e: Env, rest: bytes)
    requires PlainEnv(e)
    ensures Plain(Pair(token, e).0) ==> ReadMember(Field(token, e) + rest) == Some((Member(token, e), rest))
    ensures !Plain(Pair(token, e).0) ==>
              var r := ReadMember(Field(token, e) + rest);
              r.Some? ==> r.value.0 != Member(token, e)
  {
    hide Pair, Plain, ReadMember, ReadValue, ReadString, Key, Field;
    var text := Field(token, e) + rest;
    var (name, value) := Pair(token, e);
    PairIsSafe(token, e);
    FieldText(token, e, rest);
    if Plain(name) {
      MemberReads(name, [QUOTE] + value + [QUOTE] + rest);
      StringReads(value, rest);
    } else if ReadMember(text).Some? {
      SeparatorsPlain();
      MemberKey(text);
      UnescapedReads(name, COLON, value + [QUOTE] + rest);
      MisreadTells(name, ReadString(text[1..]));
    }
  }

  lemma NamesUnfold(tokens: seq<bytes>, envs: seq<Env>)
    requires tokens != [] && |tokens| <= |envs|
    ensures NamesPlain(tokens, envs) <==> Plain(Pair(tokens[0], envs[0]).0) && NamesPlain(tokens[1..], envs[1..])
  {
    hide Pair, Plain;
    assert tokens == [tokens[0]] + tokens[1..] && envs == [envs[0]] + envs[1..];
    if Plain(Pair(tokens[0], envs[0]).0) && NamesPlain(tokens[1..], envs[1..]) {
      forall i | 0 <= i < |tokens| ensures Plain(Pair(tokens[i], envs[i]).0) {
        assert i > 0 ==> tokens[i] == tokens[1..][i - 1] && envs[i] == envs[1..][i - 1];
      }
    }
  }

  lemma FieldsText(tokens: seq<bytes>, envs: seq<Env>)
    requires tokens != [] && |tokens| <= |envs|
    ensures var more := tokens[1..];
            JoinCommas(Fields(tokens, envs)) + [125]
            == Field(tokens[0], envs[0])
               + if more == [] then [125] else [COMMA] + (JoinCommas(Fields(more, envs[1..])) + [125])
  {
    hide Field;
    var fs := Fields(tokens, envs);
    assert fs[0] == Field(tokens[0], envs[0]) && fs[1..] == Fields(tokens[1..], envs[1..]);
    JoinUnfolds(fs);
  }

  lemma {:induction false} MembersOf(tokens: seq<bytes>, envs: seq<Env>)
    requires tokens != [] && |tokens| <= |envs| && AllPlainEnvs(envs)
    ensures NamesPlain(tokens, envs) ==>
              ReadMembers(JoinCommas(Fields(tokens, envs)) + [125]) == Some((Members(tokens, envs), []))
    ensures var r := ReadMembers(JoinCommas(Fields(tokens, envs)) + [125]);
            r.Some? && r.value.0 == Members(tokens, envs) ==> NamesPlain(tokens, envs)
    decreases |tokens|
  {
    hide Pair, Plain, ReadMember, ReadMembers, Field, Fields, Member, JoinCommas, PlainEnv;
    var t, e, more, envs' := tokens[0], envs[0], tokens[1..], envs[1..];
    var text := JoinCommas(Fields(tokens, envs)) + [125];
    var next := if more == [] then [125] else [COMMA] + (JoinCommas(Fields(more, envs')) + [125]);
    FieldsText(tokens, envs);
    FieldReads(t, e, next);
    NamesUnfold(tokens, envs);
    if ReadMembers(text).Some? {
      FirstMember(text);
    }
    if Plain(Pair(t, e).0) {
      MembersRead(text, Member(t, e), next);
      if more != [] {
        assert next[1..] == JoinCommas(Fields(more, envs')) + [125];
        MembersOf(more, envs');
        Appended([Member(t, e)], ReadMembers(next[1..]), Members(more, envs'), []);
      } else {
        assert next[1..] == [] && Members(more, envs') == [] && [Member(t, e)] + [] == [Member(t, e)];
      }
    }
  }

  // ---- Encoding ----

  predicate NamesUtf8(tokens: seq<bytes>, envs: seq<Env>)
    requires |tokens| <= |envs|
  {
    forall i :: 0 <= i < |tokens| ==> IsUtf8(Pair(tokens[i], envs[i]).0)
  }

  lemma AsciiIsUtf8(s: bytes)
    requires IsAscii(s)
    ensures IsUtf8(s)
  {
    assert s + [] == s;
    Utf8After(s, []);
  }

  lemma ValueUtf8(token: bytes, e: Env)
    requires PlainEnv(e)
    ensures IsUtf8(Pair(token, e).1)
  {
    hide Contains, Ascii, Dec, Plain, IsUtf8;
    assert IsAscii(Dec(e.temperature)) && IsAscii(Dec(e.humidity)) && IsAscii(Dec(e.status));
    AsciiIsUtf8(Dec(e.temperature));
    AsciiIsUtf8(Dec(e.humidity));
    AsciiIsUtf8(Dec(e.status));
    assert IsAscii(Ascii("V1.0.0"));
    AsciiIsUtf8(Ascii("V1.0.0"));
    AsciiIsUtf8([]);
  }

  lemma FieldUtf8(token: bytes, e: Env, rest: bytes)
    requires PlainEnv(e)
    ensures IsUtf8(Field(token, e) + rest) <==> IsUtf8(Pair(token, e).0) && IsUtf8(rest)
  {
    hide Pair, PlainEnv, IsUtf8;
    var (name, value) := Pair(token, e);
    var after := [QUOTE] + rest;
    assert Field(token, e) + rest == [QUOTE] + (name + ([QUOTE, COLON, QUOTE] + (value + after)));
    Utf8After([QUOTE], name + ([QUOTE, COLON, QUOTE] + (value + after)));
    Utf8Before(name, [QUOTE, COLON, QUOTE] + (value + after));
    Utf8After([QUOTE, COLON, QUOTE], value + after);
    ValueUtf8(token, e);
    Utf8Before(value, after);
    Utf8After([QUOTE], rest);
  }

  lemma NamesUtf8Unfold(tokens: seq<bytes>, envs: seq<Env>)
    requires tokens != [] && |tokens| <= |envs|
    ensures NamesUtf8(tokens, envs) <==> IsUtf8(Pair(tokens[0], envs[0]).0) && NamesUtf8(tokens[1..], envs[1..])
  {
    hide Pair, IsUtf8;
    if IsUtf8(Pair(tokens[0], envs[0]).0) && NamesUtf8(tokens[1..], envs[1..]) {
      forall i | 0 <= i < |tokens| ensures IsUtf8(Pair(tokens[i], envs[i]).0) {
        assert i > 0 ==> tokens[i] == tokens[1..][i - 1] && envs[i] == envs[1..][i - 1];
      }
    }
  }

  lemma {:induction false} FieldsUtf8(tokens: seq<bytes>, envs: seq<Env>)
    requires tokens != [] && |tokens| <= |envs| && AllPlainEnvs(envs)
    ensures IsUtf8(JoinCommas(Fields(tokens, envs)) + [125]) <==> NamesUtf8(tokens, envs)
    decreases |tokens|
  {
    hide Pair, Field, Fields, JoinCommas, IsUtf8, PlainEnv;
    var more, envs' := tokens[1..], envs[1..];
    AsciiIsUtf8([125]);
    FieldsText(tokens, envs);
    NamesUtf8Unfold(tokens, envs);
    if more == [] {
      FieldUtf8(tokens[0], envs[0], [125]);
    } else {
      var text := JoinCommas(Fields(more, envs')) + [125];
      FieldUtf8(tokens[0], envs[0], [COMMA] + text);
      Utf8After([COMMA], text);
      FieldsUtf8(more, envs');
    }
  }

  lemma EmptyResponse(envs: seq<Env>)
    ensures Read([123] + (JoinCommas(Fields([], envs)) + [125])) == Some(Obj(Members([], envs)))
    ensures NamesPlain([], envs) && NamesUtf8([], envs)
  {
    AsciiIsUtf8([123, 125]);
    assert [123] + (JoinCommas(Fields([], envs)) + [125]) == [123, 125];
    assert Ws([123, 125]) == [123, 125] && [123, 125][1..] == [125] && Ws([125]) == [125];
    assert [125][1..] == [] && Ws([]) == [];
  }

  lemma FieldsStart(tokens: seq<bytes>, envs: seq<Env>)
    requires tokens != [] && |tokens| <= |envs|
    ensures var inner := JoinCommas(Fields(tokens, envs)) + [125]; inner != [] && inner[0] == QUOTE
  {
    hide Pair, JoinCommas, Fields;
    FieldsText(tokens, envs);
    var next := if |tokens| == 1 then [125] else [COMMA] + (JoinCommas(Fields(tokens[1..], envs[1..])) + [125]);
    FieldText(tokens[0], envs[0], next);
  }

  lemma ReadObject(inner: bytes)
    requires inner != [] && inner[0] == QUOTE
    ensures ReadValue([123] + inner) == AsObj(ReadMembers(inner))
    ensures Read([123] + inner) ==
            var r := ReadMembers(inner);
            if IsUtf8(inner) && r.Some? && Ws(r.value.1) == [] then Some(Obj(r.value.0)) else None
  {
    hide ReadMembers, ReadValue, IsUtf8;
    Utf8After([123], inner);
    ObjectReads(inner);
  }

  /**
   The response is a JSON object of exactly the requested names and values if and
   only if every token that contains no keyword is UTF-8 and can stand in a string unescaped.
   */
  lemma ResponseReadsBack(key: bytes, envs: seq<Env>)
    requires |Tokens(key)| <= |envs| && AllPlainEnvs(envs)
    ensures Read(Response(key, envs)) == Some(Obj(Members(Tokens(key), envs)))
            <==> NamesPlain(Tokens(key), envs) && NamesUtf8(Tokens(key), envs)
  {
    hide Tokens, Fields, Members, JoinCommas, ReadMembers, NamesPlain, NamesUtf8, IsUtf8;
    var tokens := Tokens(key);
    var inner := JoinCommas(Fields(tokens, envs)) + [125];
    assert Response(key, envs) == [123] + inner;
    if tokens == [] {
      EmptyResponse(envs);
    } else {
      FieldsStart(tokens, envs);
      ObjectReads(inner);
      MembersOf(tokens, envs);
      FieldsUtf8(tokens, envs);
      ReadObject(inner);
    }
  }

  // ---- What each token means ----

  predicate Has(token: bytes, word: string) {
    Contains(token, Ascii(word))
  }

  predicate IsPair(name: bytes, value: bytes, word: string, v: bytes) {
    name == Ascii(word) && value == v
  }

  /** The first of the nine words in the token gives name and value; without one the token is the name of nothing. */
  predicate Means(token: bytes, e: Env, name: bytes, value: bytes) {
    var ssid, temp, humidity, utc := Has(token, "SSID"), Has(token, "Temp"), Has(token, "Humidity"), Has(token, "UTC");
    var here, time, date := Has(token, "Local"), Has(token, "CompileTime"), Has(token, "CompileDate");
    var version, status := Has(token, "FirmwareVersion"), Has(token, "WiFiStatus");
    var sensor := ssid || temp || humidity;
    var clock := sensor || utc || here;
    var build := clock || time || date;
    && (ssid ==> IsPair(name, value, "SSID", e.ssid))
    && (temp && !ssid ==> IsPair(name, value, "Temp", Dec(e.temperature)))
    && (humidity && !ssid && !temp ==> IsPair(name, value, "Humidity", Dec(e.humidity)))
    && (utc && !sensor ==> IsPair(name, value, "UTC", e.utc))
    && (here && !sensor && !utc ==> IsPair(name, value, "Local", e.here))
    && (time && !clock ==> IsPair(name, value, "CompileTime", e.buildTime))
    && (date && !clock && !time ==> IsPair(name, value, "CompileDate", e.buildDate))
    && (version && !build ==> IsPair(name, value, "FirmwareVersion", Ascii("V1.0.0")))
    && (status && !build && !version ==> IsPair(name, value, "WiFiStatus", Dec(e.status)))
    && (!build && !version && !status ==> name == token && value == [])
  }

  /** The token holds one of the nine words, or can stand in a string as it is. */
  predicate Writable(token: bytes) {
    || Has(token, "SSID") || Has(token, "Temp") || Has(token, "Humidity") || Has(token, "UTC") || Has(token, "Local")
    || Has(token, "CompileTime") || Has(token, "CompileDate") || Has(token, "FirmwareVersion")
    || Has(token, "WiFiStatus") || (Plain(token) && IsUtf8(token))
  }

  lemma PairMeans(token: bytes, e: Env, name: bytes, value: bytes)
    ensures Means(token, e, name, value) <==> Pair(token, e) == (name, value)
  {
    hide Contains, Ascii, Dec;
  }

  lemma WordIsUtf8(word: string)
    requires forall i :: 0 <= i < |word| ==> word[i] as int < 0x80
    ensures IsUtf8(Ascii(word))
  {
    hide IsUtf8;
    assert IsAscii(Ascii(word));
    AsciiIsUtf8(Ascii(word));
  }

  lemma LiteralsUtf8()
    ensures IsUtf8(Ascii("SSID")) && IsUtf8(Ascii("Temp")) && IsUtf8(Ascii("Humidity")) && IsUtf8(Ascii("UTC"))
    ensures IsUtf8(Ascii("Local")) && IsUtf8(Ascii("CompileTime")) && IsUtf8(Ascii("CompileDate"))
    ensures IsUtf8(Ascii("FirmwareVersion")) && IsUtf8(Ascii("WiFiStatus"))
  {
    hide Ascii, IsUtf8;
    WordIsUtf8("SSID");
    WordIsUtf8("Temp");
    WordIsUtf8("Humidity");
    WordIsUtf8("UTC");
    WordIsUtf8("Local");
    WordIsUtf8("CompileTime");
    WordIsUtf8("CompileDate");
    WordIsUtf8("FirmwareVersion");
    WordIsUtf8("WiFiStatus");
  }

  lemma WritableNames(token: bytes, e: Env)
    ensures Writable(token) <==> Plain(Pair(token, e).0) && IsUtf8(Pair(token, e).0)
  {
    hide Contains, Ascii, Dec, Plain, IsUtf8;
    LiteralsPlain();
    LiteralsUtf8();
  }

  ghost predicate AllWritable(tokens: seq<bytes>) {
    forall i :: 0 <= i < |tokens| ==> Writable(tokens[i])
  }

  lemma AllWritableNames(tokens: seq<bytes>, envs: seq<Env>)
    requires |tokens| <= |envs|
    ensures AllWritable(tokens) <==> NamesPlain(tokens, envs) && NamesUtf8(tokens, envs)
  {
    hide Pair, Plain, IsUtf8, Writable;
    forall i | 0 <= i < |tokens|
      ensures Writable(tokens[i]) <==> Plain(Pair(tokens[i], envs[i]).0) && IsUtf8(Pair(tokens[i], envs[i]).0)
    {
      WritableNames(tokens[i], envs[i]);
    }
  }

  /** One member for each token, in order, with the name and the value the token means. */
  predicate Answers(tokens: seq<bytes>, envs: seq<Env>, members: seq<(bytes, Value)>)
    requires |tokens| <= |envs|
  {
    && |members| == |tokens|
    && forall i :: 0 <= i < |tokens| ==>
         members[i].1.Str? && Means(tokens[i], envs[i], members[i].0, members[i].1.s)
  }

  lemma {:induction false} MembersLength(tokens: seq<bytes>, envs: seq<Env>)
    requires |tokens| <= |envs|
    ensures |Members(tokens, envs)| == |tokens|
    decreases |tokens|
  {
    if tokens == [] {
    } else {
      MembersLength(tokens[1..], envs[1..]);
    }
  }

  lemma {:induction false} MembersAt(tokens: seq<bytes>, envs: seq<Env>, i: nat)
    requires i < |tokens| <= |envs|
    ensures |Members(tokens, envs)| == |tokens| && Members(tokens, envs)[i] == Member(tokens[i], envs[i])
    decreases i
  {
    hide Member;
    MembersLength(tokens, envs);
    if i == 0 {
    } else {
      MembersAt(tokens[1..], envs[1..], i - 1);
    }
  }

  lemma {:induction false} MembersAnswer(tokens: seq<bytes>, envs: seq<Env>, members: seq<(bytes, Value)>)
    requires |tokens| <= |envs|
    ensures Answers(tokens, envs, members) <==> members == Members(tokens, envs)
    decreases |tokens|
  {
    hide Pair, Means;
    MembersLength(tokens, envs);
    if |members| == |tokens| {
      forall i | 0 <= i < |tokens|
        ensures members[i] == Members(tokens, envs)[i] <==>
                members[i].1.Str? && Means(tokens[i], envs[i], members[i].0, members[i].1.s)
      {
        MembersAt(tokens, envs, i);
        if members[i].1.Str? {
          PairMeans(tokens[i], envs[i], members[i].0, members[i].1.s);
        }
      }
    }
  }

  /**
   The response is a JSON object with one member for each token, in order, whose
   name and value are those of the first of the nine words in it, if and only if
   every token without one can stand in a string as it is.
   */
  lemma ResponseAnswers(key: bytes, envs: seq<Env>)
    requires |Tokens(key)| <= |envs| && AllPlainEnvs(envs)
    ensures var v := Read(Response(key, envs));
            v.Some? && v.value.Obj? && Answers(Tokens(key), envs, v.value.members) <==> AllWritable(Tokens(key))
  {
    hide Tokens, Members, Response, Read, AllWritable, Answers, NamesPlain, NamesUtf8, AllPlainEnvs;
    ResponseReadsBack(key, envs);
    AllWritableNames(Tokens(key), envs);
    var v := Read(Response(key, envs));
    if v.Some? && v.value.Obj? {
      MembersAnswer(Tokens(key), envs, v.value.members);
    }
  }
}
