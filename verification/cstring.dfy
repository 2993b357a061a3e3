/** The C library's strstr and snprintf. */
module CStr {
  import opened Base

  predicate At(s: bytes, pos: nat, pattern: bytes) {
    pos + |pattern| <= |s| && s[pos..pos + |pattern|] == pattern
  }

  /** The first place from `from` on at which `pattern` stands in `s`. */
  function FindFrom(s: bytes, pattern: bytes, from: nat): (r: Option<nat>)
    requires from <= |s|
    ensures r.Some? ==> from <= r.value && At(s, r.value, pattern)
    ensures r.Some? ==> forall i :: from <= i < r.value ==> !At(s, i, pattern)
    ensures r.None? ==> forall i :: from <= i ==> !At(s, i, pattern)
    decreases |s| - from
  {
    if At(s, from, pattern) then Some(from)
    else if from == |s| then None
    else FindFrom(s, pattern, from + 1)
  }

  function Find(s: bytes, pattern: bytes): (r: Option<nat>)
    ensures r.Some? ==> At(s, r.value, pattern) && forall i :: 0 <= i < r.value ==> !At(s, i, pattern)
    ensures r.None? ==> forall i :: 0 <= i ==> !At(s, i, pattern)
  {
    FindFrom(s, pattern, 0)
  }

  predicate Contains(s: bytes, pattern: bytes) {
    Find(s, pattern).Some?
  }

  /** strstr on a buffer sees only what stands before the first NUL. */
  function StrStr(buffer: bytes, pattern: CString): Option<nat> {
    Find(UpToNul(buffer), pattern)
  }

  /** A first occurrence in a prefix is the first occurrence. */
  lemma FirstStays(s: bytes, longer: bytes, pattern: bytes)
    requires s <= longer && Find(s, pattern).Some?
    ensures Find(longer, pattern) == Find(s, pattern)
  {
    var k := Find(s, pattern).value;
    forall i | 0 <= i && i + |pattern| <= |s|
      ensures At(longer, i, pattern) <==> At(s, i, pattern)
    {
      assert longer[i..i + |pattern|] == s[i..i + |pattern|];
    }
    assert At(longer, k, pattern);
  }

  /** What is found before the first NUL of a chunk is found in any buffer the chunk starts. */
  lemma StrStrInBuffer(chunk: bytes, buffer: bytes, pattern: CString)
    requires chunk <= buffer && StrStr(chunk, pattern).Some?
    ensures StrStr(buffer, pattern) == StrStr(chunk, pattern)
  {
    var a, b := UpToNul(chunk), UpToNul(buffer);
    assert forall i :: 0 <= i < |a| ==> buffer[i] == chunk[i] == a[i];
    assert a <= b;
    FirstStays(a, b, pattern);
  }

  lemma Assembled(was: bytes, now: bytes, at: nat, text: bytes)
    requires at + |text| < |was| == |now| && now[at + |text|] == 0
    requires forall i :: 0 <= i < at || at + |text| < i < |was| ==> now[i] == was[i]
    requires forall i :: at <= i < at + |text| ==> now[i] == text[i - at]
    ensures now == was[..at] + text + [0] + was[at + |text| + 1..]
  {
    var r := was[..at] + text + [0] + was[at + |text| + 1..];
    forall i | 0 <= i < |now| ensures r[i] == now[i] {
    }
  }

  /** snprintf at `at` with `room` bytes left: as much as fits, then NUL; the full length is returned. */
  method Snprintf(buffer: array<byte>, at: nat, room: nat, text: bytes) returns (n: nat)
    requires room > 0 && at + room <= buffer.Length
    modifies buffer
    ensures n == |text|
    ensures var put := Min(|text|, room - 1);
            buffer[..] == old(buffer[..at]) + text[..put] + [0] + old(buffer[at + put + 1..])
  {
    var put := Min(|text|, room - 1);
    for i := 0 to put
      invariant forall j :: 0 <= j < buffer.Length && !(at <= j < at + i) ==> buffer[j] == old(buffer[j])
      invariant forall j :: at <= j < at + i ==> buffer[j] == text[j - at]
    {
      buffer[at + i] := text[i];
    }
    buffer[at + put] := 0;
    Assembled(old(buffer[..]), buffer[..], at, text[..put]);
    assert old(buffer[..])[..at] == old(buffer[..at]);
    assert old(buffer[..])[at + put + 1..] == old(buffer[at + put + 1..]);
    n := |text|;
  }

  /** Appends a text that fits to a buffer that holds a text and zeros. */
  method Append(buffer: array<byte>, ghost before: bytes, at: nat, text: bytes) returns (n: nat)
    requires at == |before| && at + |text| < buffer.Length
    requires buffer[..] == before + Zeros(buffer.Length - at)
    modifies buffer
    ensures n == |text|
    ensures buffer[..] == before + text + Zeros(buffer.Length - at - |text|)
  {
    n := Snprintf(buffer, at, buffer.Length - at, text);
    assert old(buffer[..at]) == old(buffer[..])[..at] == before;
    var next := at + |text| + 1;
    assert old(buffer[next..]) == old(buffer[..])[next..] == Zeros(buffer.Length - next);
    assert [0] + Zeros(buffer.Length - next) == Zeros(buffer.Length - at - |text|);
    assert text[..|text|] == text;
  }
}
