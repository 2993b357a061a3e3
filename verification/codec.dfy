/**
 The byte layout of the two database files: an 8-byte header and 44-byte card
 records, little-endian, with the padding the compiler puts before `timestamp`.
 */
module Codec {
  import opened Base

  const HEADER_SIZE := 8
  const CARD_SIZE := 44
  const NAME_SIZE := 32

  type Name = s: bytes | |s| == 32 witness seq(32, _ => 0)
  type Pad = s: bytes | |s| == 3 witness [0, 0, 0]

  /** rfid_database_t */
  datatype Header = Header(count: u16, max: u16, checksum: u32)

  /** rfid_card_t; `pad` holds the three bytes between `name` and `timestamp`. */
  datatype Card = Card(id: u32, active: byte, name: Name, pad: Pad, timestamp: u32)

  function U16Bytes(n: u16): (b: bytes)
    ensures |b| == 2
  {
    [n % 0x100, n / 0x100]
  }

  function BytesU16(b: bytes): u16
    requires |b| == 2
  {
    b[0] as int + 0x100 * (b[1] as int)
  }

  function U32Bytes(n: u32): (b: bytes)
    ensures |b| == 4
  {
    U16Bytes(n % 0x1_0000) + U16Bytes(n / 0x1_0000)
  }

  function BytesU32(b: bytes): u32
    requires |b| == 4
  {
    BytesU16(b[..2]) as int + 0x1_0000 * (BytesU16(b[2..]) as int)
  }

  lemma U16BytesRoundTrip(b: bytes)
    requires |b| == 2
    ensures U16Bytes(BytesU16(b)) == b
  {
  }

  lemma SplitWord(lo: u16, hi: u16)
    ensures (lo + 0x1_0000 * hi) % 0x1_0000 == lo && (lo + 0x1_0000 * hi) / 0x1_0000 == hi
  {
  }

  lemma U32RoundTrip(n: u32)
    ensures BytesU32(U32Bytes(n)) == n
  {
    var lo, hi := U16Bytes(n % 0x1_0000), U16Bytes(n / 0x1_0000);
    assert (lo + hi)[..2] == lo && (lo + hi)[2..] == hi;
  }

  lemma U32BytesRoundTrip(b: bytes)
    requires |b| == 4
    ensures U32Bytes(BytesU32(b)) == b
  {
    U16BytesRoundTrip(b[..2]);
    U16BytesRoundTrip(b[2..]);
    SplitWord(BytesU16(b[..2]), BytesU16(b[2..]));
    assert b == b[..2] + b[2..];
  }

  function EncodeHeader(h: Header): (b: bytes)
    ensures |b| == HEADER_SIZE
  {
    U16Bytes(h.count) + U16Bytes(h.max) + U32Bytes(h.checksum)
  }

  function DecodeHeader(b: bytes): Header
    requires |b| == HEADER_SIZE
  {
    Header(BytesU16(b[..2]), BytesU16(b[2..4]), BytesU32(b[4..]))
  }

  lemma HeaderRoundTrip(h: Header)
    ensures DecodeHeader(EncodeHeader(h)) == h
  {
    var b := EncodeHeader(h);
    assert b[..2] == U16Bytes(h.count) && b[2..4] == U16Bytes(h.max) && b[4..] == U32Bytes(h.checksum);
    U32RoundTrip(h.checksum);
  }

  lemma HeaderBytesRoundTrip(b: bytes)
    requires |b| == HEADER_SIZE
    ensures EncodeHeader(DecodeHeader(b)) == b
  {
    U16BytesRoundTrip(b[..2]);
    U16BytesRoundTrip(b[2..4]);
    U32BytesRoundTrip(b[4..]);
    assert b == b[..2] + b[2..4] + b[4..];
  }

  function EncodeCard(c: Card): (b: bytes)
    ensures |b| == CARD_SIZE
  {
    U32Bytes(c.id) + [c.active] + c.name + c.pad + U32Bytes(c.timestamp)
  }

  function DecodeCard(b: bytes): Card
    requires |b| == CARD_SIZE
  {
    Card(BytesU32(b[..4]), b[4], b[5..37], b[37..40], BytesU32(b[40..]))
  }

  lemma CardRoundTrip(c: Card)
    ensures DecodeCard(EncodeCard(c)) == c
  {
    var b := EncodeCard(c);
    assert b[..4] == U32Bytes(c.id) && b[4] == c.active && b[5..37] == c.name;
    assert b[37..40] == c.pad && b[40..] == U32Bytes(c.timestamp);
    U32RoundTrip(c.id);
    U32RoundTrip(c.timestamp);
  }

  lemma CardBytesRoundTrip(b: bytes)
    requires |b| == CARD_SIZE
    ensures EncodeCard(DecodeCard(b)) == b
  {
    U32BytesRoundTrip(b[..4]);
    U32BytesRoundTrip(b[40..]);
    assert b == b[..4] + [b[4]] + b[5..37] + b[37..40] + b[40..];
  }

  function EncodeCards(cs: seq<Card>): (b: bytes)
    ensures |b| == CARD_SIZE * |cs|
  {
    if cs == [] then [] else EncodeCard(cs[0]) + EncodeCards(cs[1..])
  }

  function DecodeCards(b: bytes, n: nat): (cs: seq<Card>)
    requires |b| == CARD_SIZE * n
    ensures |cs| == n
  {
    if n == 0 then [] else [DecodeCard(b[..CARD_SIZE])] + DecodeCards(b[CARD_SIZE..], n - 1)
  }

  lemma {:induction false} CardsRoundTrip(cs: seq<Card>)
    ensures DecodeCards(EncodeCards(cs), |cs|) == cs
  {
    if cs == [] {
    } else {
      var b := EncodeCards(cs);
      assert b[..CARD_SIZE] == EncodeCard(cs[0]) && b[CARD_SIZE..] == EncodeCards(cs[1..]);
      CardRoundTrip(cs[0]);
      CardsRoundTrip(cs[1..]);
    }
  }

  lemma {:induction false} CardsBytesRoundTrip(b: bytes, n: nat)
    requires |b| == CARD_SIZE * n
    ensures EncodeCards(DecodeCards(b, n)) == b
  {
    if n == 0 {
    } else {
      CardBytesRoundTrip(b[..CARD_SIZE]);
      CardsBytesRoundTrip(b[CARD_SIZE..], n - 1);
      assert b == b[..CARD_SIZE] + b[CARD_SIZE..];
    }
  }

  /** Appending a record to the file appends a card to the list. */
  lemma {:induction false} EncodeAppend(cs: seq<Card>, c: Card)
    ensures EncodeCards(cs + [c]) == EncodeCards(cs) + EncodeCard(c)
  {
    if cs == [] {
      assert cs + [c] == [c];
      assert EncodeCards([c]) == EncodeCard(c) + EncodeCards([]);
    } else {
      assert (cs + [c])[1..] == cs[1..] + [c];
      EncodeAppend(cs[1..], c);
    }
  }

  /** strncpy into the first 31 bytes of the zero-initialised name, byte 31 forced to NUL. */
  function NameField(s: CString): (r: Name)
    ensures UpToNul(r) == s[..Min(|s|, 31)]
    ensures forall i :: |s| <= i < 32 || i == 31 ==> r[i] == 0
  {
    var kept := s[..Min(|s|, NAME_SIZE - 1)];
    var r := kept + Zeros(NAME_SIZE - |kept|);
    UpToNulStops(kept, Zeros(NAME_SIZE - |kept|));
    r
  }

  /** The name field holds a C string: there is a NUL inside its 32 bytes. */
  predicate Terminated(c: Card) {
    |UpToNul(c.name)| < NAME_SIZE
  }

  // ---- Where each field stands ----

  /** A little-endian word of four bytes. */
  function WordAt(b: bytes, at: nat): nat
    requires at + 4 <= |b|
  {
    b[at] as int + 0x100 * (b[at + 1] as int) + 0x1_0000 * (b[at + 2] as int) + 0x100_0000 * (b[at + 3] as int)
  }

  lemma U16RoundTrips(n: u16)
    ensures var b := U16Bytes(n); b[0] as int + 0x100 * (b[1] as int) == n
  {
  }

  lemma WordBytes(n: u32)
    ensures WordAt(U32Bytes(n), 0) == n
  {
    U16RoundTrips(n % 0x1_0000);
    U16RoundTrips(n / 0x1_0000);
  }

  lemma WordIn(b: bytes, at: nat, field: bytes)
    requires |field| == 4 && at + 4 <= |b| && b[at..at + 4] == field
    ensures WordAt(b, at) == WordAt(field, 0)
  {
    var w := b[at..at + 4];
    assert b[at] == w[0] && b[at + 1] == w[1] && b[at + 2] == w[2] && b[at + 3] == w[3];
  }

  lemma HeaderBytes(h: Header)
    ensures var b := EncodeHeader(h);
            && |b| == 8 && WordAt(b, 4) == h.checksum
            && b[0] as int + 0x100 * (b[1] as int) == h.count && b[2] as int + 0x100 * (b[3] as int) == h.max
  {
    WordBytes(h.checksum);
    WordIn(EncodeHeader(h), 4, U32Bytes(h.checksum));
  }

  lemma CardBytes(c: Card)
    ensures var b := EncodeCard(c);
            && |b| == 44 && WordAt(b, 0) == c.id && b[4] == c.active
            && b[5..37] == c.name && b[37..40] == c.pad && WordAt(b, 40) == c.timestamp
  {
    hide U32Bytes;
    WordBytes(c.id);
    WordBytes(c.timestamp);
    WordIn(EncodeCard(c), 0, U32Bytes(c.id));
    WordIn(EncodeCard(c), 40, U32Bytes(c.timestamp));
  }
}
