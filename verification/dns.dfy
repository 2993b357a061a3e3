/** Domain names on the wire (RFC 1035 section 3.1), and the DNS responder's parser for them. */
module Dns {
  import opened Base

  const HEADER := 12
  const REPLY_SIZE := 256
  const NAME_SIZE := 128
  const ANSWER_SIZE := 16
  const DOT: byte := 46

  type Quad = s: bytes | |s| == 4 witness [0, 0, 0, 0]

  function Slice(raw: bytes, from: nat, len: nat): (r: bytes)
    requires from + len <= |raw|
    ensures |r| == len
  {
    raw[from..from + len]
  }

  function U16At(s: bytes, at: nat): nat
    requires at + 2 <= |s|
  {
    (s[at] as int) * 0x100 + s[at + 1] as int
  }

  // ---- Names ----

  /** A domain name: its labels, then the root. */
  datatype Name = Root | Sub(first: bytes, parent: Name)

  /** Labels of section 3.1: 1 to 63 bytes. */
  predicate Proper(n: Name) {
    n.Sub? ==> 1 <= |n.first| <= 63 && Proper(n.parent)
  }

  /** The length of the labels, each with its length byte or its dot. */
  function NameSize(n: Name): nat {
    match n
    case Root => 0
    case Sub(l, parent) => |l| + 1 + NameSize(parent)
  }

  function EncodeName(n: Name): (r: bytes)
    requires Proper(n)
    ensures |r| == NameSize(n) + 1
  {
    match n
    case Root => [0]
    case Sub(l, parent) => [|l|] + l + EncodeName(parent)
  }

  function Dotting(l: bytes, rest: bytes): (r: bytes)
    ensures |r| == |l| + 1 + |rest|
  {
    l + [DOT] + rest
  }

  /** Every label followed by a dot. */
  function Dots(n: Name): (r: bytes)
    ensures |r| == NameSize(n)
  {
    match n
    case Root => []
    case Sub(l, parent) => Dotting(l, Dots(parent))
  }

  /** Labels joined by dots. */
  function Dotted(n: Name): bytes {
    match n
    case Root => []
    case Sub(l, Root) => l
    case Sub(l, parent) => l + [46] + Dotted(parent)
  }

  lemma {:induction false} DottedIsDots(n: Name)
    requires n.Sub?
    ensures Dots(n) == Dotted(n) + [DOT]
  {
    if n.parent.Root? {
      assert n.first + [DOT] + [] == n.first + [DOT];
    } else {
      DottedIsDots(n.parent);
      var d := Dotted(n.parent);
      assert n.first + [DOT] + (d + [DOT]) == n.first + [DOT] + d + [DOT];
    }
  }

  /** The encoding of `n` stands at this position. */
  predicate HoldsName(raw: bytes, pos: nat, n: Name)
    decreases n
  {
    match n
    case Root => pos < |raw| && raw[pos] == 0
    case Sub(l, parent) =>
      && l != [] && pos + |l| < |raw| && raw[pos] == |l| && Slice(raw, pos + 1, |l|) == l
      && HoldsName(raw, pos + |l| + 1, parent)
  }

  lemma {:induction false} EncodedHolds(before: bytes, n: Name, after: bytes)
    requires Proper(n)
    ensures HoldsName(before + EncodeName(n) + after, |before|, n)
    decreases n
  {
    var raw := before + EncodeName(n) + after;
    if n.Root? {
    } else {
      var l, rest := n.first, EncodeName(n.parent);
      var head := before + ([|l|] + l);
      assert raw == head + rest + after;
      EncodedHolds(head, n.parent, after);
      assert raw[|before| + 1..|before| + 1 + |l|] == l;
    }
  }

  lemma {:induction false} HoldsSame(raw: bytes, raw': bytes, pos: nat, n: Name)
    requires HoldsName(raw, pos, n) && |raw| <= |raw'|
    requires forall i :: pos <= i <= pos + NameSize(n) && i < |raw| ==> raw'[i] == raw[i]
    ensures HoldsName(raw', pos, n)
    decreases n
  {
    if n.Sub? {
      assert raw'[pos] == raw[pos];
      assert raw'[pos + 1..pos + 1 + |n.first|] == raw[pos + 1..pos + 1 + |n.first|];
      HoldsSame(raw, raw', pos + |n.first| + 1, n.parent);
    } else {
      assert raw'[pos] == raw[pos];
    }
  }

  // ---- parse_dns_name ----

  /** Where the parser's loop stops from `pos` on, with this much room in the name buffer. */
  function Walk(raw: bytes, pos: nat, room: nat): (r: Option<nat>)
    requires pos + room < |raw|
    ensures r.Some? ==> pos + 2 <= r.value <= pos + room + 1
    decreases room
  {
    var len: nat := raw[pos];
    if len + 1 > room then None
    else if raw[pos + len + 1] == 0 then Some(pos + len + 2)
    else Walk(raw, pos + len + 1, room - (len + 1))
  }

  /** The bytes the loop puts into the name buffer. */
  function Copied(raw: bytes, pos: nat, room: nat): (r: bytes)
    requires pos + room < |raw| && Walk(raw, pos, room).Some?
    ensures |r| == Walk(raw, pos, room).value - pos - 1
    decreases room
  {
    var len: nat := raw[pos];
    var next := pos + len + 1;
    Dotting(Slice(raw, pos + 1, len), if raw[next] == 0 then [] else Copied(raw, next, room - (len + 1)))
  }

  /** On a correctly encoded name the loop stops behind it, or runs out of buffer. */
  lemma {:induction false} WalkReadsName(raw: bytes, pos: nat, n: Name, room: nat)
    requires n.Sub? && HoldsName(raw, pos, n) && pos + room < |raw|
    ensures Walk(raw, pos, room) == if NameSize(n) <= room then Some(pos + NameSize(n) + 1) else None
    decreases n
  {
    hide Slice;
    if n.parent.Sub? && |n.first| + 1 <= room {
      WalkReadsName(raw, pos + |n.first| + 1, n.parent, room - (|n.first| + 1));
    }
  }

  /** What it copies is the labels with their dots. */
  lemma {:induction false} WalkCopiesName(raw: bytes, pos: nat, n: Name, room: nat)
    requires n.Sub? && HoldsName(raw, pos, n) && pos + room < |raw| && NameSize(n) <= room
    ensures Walk(raw, pos, room).Some? && Copied(raw, pos, room) == Dots(n)
    decreases n
  {
    hide Slice, Dotting;
    if n.parent.Sub? {
      WalkCopiesName(raw, pos + |n.first| + 1, n.parent, room - (|n.first| + 1));
    }
  }

  /** The text in the name buffer: the copied bytes with the last dot replaced by NUL. */
  function Text(raw: bytes, pos: nat, room: nat): bytes
    requires pos + room < |raw| && Walk(raw, pos, room).Some?
  {
    var copied := Copied(raw, pos, room);
    copied[..|copied| - 1] + [0]
  }

  /**
   What parsing an encoded name of at least one label gives: the labels joined
   by dots and a NUL, and the position just past the name; or nothing, exactly
   if the labels with their dots do not fit the buffer.
   */
  lemma NameParses(before: bytes, n: Name, after: bytes, room: nat)
    requires Proper(n) && n.Sub?
    requires |before| + room < |before + EncodeName(n) + after|
    ensures var raw := before + EncodeName(n) + after;
            if NameSize(n) <= room then
              && Walk(raw, |before|, room) == Some(|before + EncodeName(n)|)
              && Text(raw, |before|, room) == Dotted(n) + [0]
            else Walk(raw, |before|, room).None?
  {
    var raw := before + EncodeName(n) + after;
    EncodedHolds(before, n, after);
    WalkReadsName(raw, |before|, n, room);
    if NameSize(n) <= room {
      WalkCopiesName(raw, |before|, n, room);
      DottedIsDots(n);
    }
  }

  lemma WalkUnfolds(raw: bytes, pos: nat, room: nat, len: nat)
    requires pos + room < |raw| && raw[pos] == len
    ensures len + 1 > room ==> Walk(raw, pos, room).None?
    ensures len + 1 <= room && raw[pos + len + 1] == 0 ==>
              Walk(raw, pos, room) == Some(pos + len + 2)
              && Copied(raw, pos, room) == Dotting(Slice(raw, pos + 1, len), [])
    ensures len + 1 <= room && raw[pos + len + 1] != 0 ==>
              Walk(raw, pos, room) == Walk(raw, pos + len + 1, room - (len + 1))
              && (Walk(raw, pos, room).Some? ==>
                    Copied(raw, pos, room)
                    == Dotting(Slice(raw, pos + 1, len), Copied(raw, pos + len + 1, room - (len + 1))))
  {
    hide Slice, Dotting;
  }

  lemma Shift(done: bytes, l: bytes, rest: bytes)
    ensures done + Dotting(l, rest) == done + Dotting(l, []) + rest
  {
  }

  /** With these bytes in the name buffer the loop is on its way to what Walk and Copied say, or done. */
  predicate Progress(wire: bytes, at: nat, cap: nat, done: bytes, more: bool)
    requires at + cap < |wire|
  {
    var r := Walk(wire, at, cap);
    && |done| <= cap
    && if more then
         && r == Walk(wire, at + |done|, cap - |done|)
         && (r.Some? ==> Copied(wire, at, cap) == done + Copied(wire, at + |done|, cap - |done|))
       else
         done != [] && r == Some(at + |done| + 1) && Copied(wire, at, cap) == done
  }

  lemma ProgressStarts(wire: bytes, at: nat, cap: nat)
    requires at + cap < |wire|
    ensures Progress(wire, at, cap, [], true)
  {
    hide Walk, Copied;
    if Walk(wire, at, cap).Some? {
      assert [] + Copied(wire, at, cap) == Copied(wire, at, cap);
    }
  }

  lemma ProgressStep(wire: bytes, at: nat, cap: nat, done: bytes, len: nat)
    requires at + cap < |wire| && Progress(wire, at, cap, done, true) && wire[at + |done|] == len
    ensures |done| + len + 1 > cap ==> Walk(wire, at, cap).None?
    ensures |done| + len + 1 <= cap ==>
              var pos := at + |done|;
              Progress(wire, at, cap, done + Dotting(Slice(wire, pos + 1, len), []), wire[pos + len + 1] != 0)
  {
    hide Walk, Copied, Slice, Dotting;
    var pos, room := at + |done|, cap - |done|;
    WalkUnfolds(wire, pos, room, len);
    if len + 1 <= room && wire[pos + len + 1] != 0 && Walk(wire, at, cap).Some? {
      Shift(done, Slice(wire, pos + 1, len), Copied(wire, pos + len + 1, room - (len + 1)));
    }
  }

  lemma ProgressEnds(wire: bytes, at: nat, cap: nat, done: bytes)
    requires at + cap < |wire| && Progress(wire, at, cap, done, false)
    ensures done != [] && Walk(wire, at, cap) == Some(at + |done| + 1)
    ensures Text(wire, at, cap) == done[..|done| - 1] + [0]
  {
    hide Walk, Copied;
  }

  /** memcpy of one label, and the dot after it. */
  method CopyLabel(raw: array<byte>, pos: nat, len: nat, name: array<byte>, used: nat)
    requires name != raw && pos + len + 1 <= raw.Length && used + len + 1 <= name.Length
    modifies name
    ensures name[..used + len + 1] == old(name[..used]) + Dotting(Slice(raw[..], pos + 1, len), [])
  {
    for i := 0 to len
      invariant name[..used] == old(name[..used])
      invariant name[used..used + i] == raw[pos + 1..pos + 1 + i]
    {
      name[used + i] := raw[pos + 1 + i];
      assert name[used..used + i + 1] == name[used..used + i] + [name[used + i]];
    }
    name[used + len] := DOT;
    assert name[..used + len + 1] == name[..used] + name[used..used + len] + [DOT];
    assert raw[..][pos + 1..pos + 1 + len] == raw[pos + 1..pos + 1 + len];
    assert raw[pos + 1..pos + 1 + len] + [DOT] + [] == raw[pos + 1..pos + 1 + len] + [DOT];
  }

  /**
   Copies the name at `at` as dotted text ended by NUL; returns the position
   after the name, or none if the text does not fit. The space left in the name
   buffer is what makes the loop end and keeps its reads inside `raw`.
   */
  method ParseName(raw: array<byte>, at: nat, name: array<byte>) returns (end: Option<nat>)
    requires name != raw && at + name.Length < raw.Length
    modifies name
    ensures end == Walk(raw[..], at, name.Length)
    ensures end.Some? ==> name[..end.value - at - 1] == Text(raw[..], at, name.Length)
  {
    hide Progress, Walk, Copied, Slice, Dotting;
    ghost var wire := raw[..];
    ProgressStarts(wire, at, name.Length);
    var pos: nat, used: nat := at, 0;
    var more := true;
    while more
      invariant used <= name.Length && pos == at + used && raw[..] == wire && (more || used > 0)
      invariant Progress(wire, at, name.Length, name[..used], more)
      decreases more, name.Length - used
    {
      var len: nat := raw[pos];
      ProgressStep(wire, at, name.Length, name[..used], len);
      if used + len + 1 > name.Length {
        return None;
      }
      CopyLabel(raw, pos, len, name, used);
      used := used + len + 1;
      pos := pos + len + 1;
      more := raw[pos] != 0;
    }
    ProgressEnds(wire, at, name.Length, name[..used]);
    // The dot behind the last label makes room for the NUL
    name[used - 1] := 0;
    end := Some(pos + 1);
    assert name[..used] == name[..used - 1] + [0];
  }
}
