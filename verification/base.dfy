/** Machine words, byte strings and the result codes used by every component. */
module Base {

  type byte = b: int | 0 <= b < 0x100
  type u16 = n: int | 0 <= n < 0x1_0000
  type u32 = n: int | 0 <= n < 0x1_0000_0000
  type bytes = seq<byte>

  /** What a C string points at, up to its terminating NUL. */
  type CString = s: bytes | 0 !in s

  datatype Option<+T> = None | Some(value: T)

  /** The esp_err_t values these components return. */
  datatype EspErr = Ok | Fail | NoMem | InvalidArg | InvalidState | NotFound | NotSupported

  function Zeros(n: nat): (r: bytes)
    ensures |r| == n
    ensures forall i :: 0 <= i < n ==> r[i] == 0
  {
    seq(n, _ => 0)
  }

  /** The bytes of an ASCII literal. */
  function Ascii(s: string): (r: bytes)
    ensures |r| == |s|
    ensures forall i :: 0 <= i < |s| ==> r[i] == s[i] as int % 0x100
  {
    seq(|s|, i requires 0 <= i < |s| => s[i] as int % 0x100)
  }

  /** The bytes before the first NUL, or all of them. */
  function UpToNul(s: bytes): (r: CString)
    ensures |r| <= |s| && r == s[..|r|]
    ensures |r| < |s| ==> s[|r|] == 0
  {
    if s == [] || s[0] == 0 then [] else
      var r := UpToNul(s[1..]);
      assert s[..|r| + 1] == [s[0]] + s[1..][..|r|];
      [s[0]] + r
  }

  lemma {:induction false} UpToNulStops(s: CString, rest: bytes)
    requires rest != [] && rest[0] == 0
    ensures UpToNul(s + rest) == s
  {
    if s == [] {
      assert s + rest == rest;
    } else {
      assert (s + rest)[1..] == s[1..] + rest;
      UpToNulStops(s[1..], rest);
    }
  }

  function Min(a: int, b: int): int {
    if a <= b then a else b
  }
}
