/**
 The card-database calls as the C functions make them: straight-line code with
 loops over storage and a mutex. Each is proved to do exactly what the machine
 of module Protocol does when it runs alone, for every outcome of every access,
 and to give the mutex back on every path.
 */
module Manager {
  import opened Base
  import opened Codec
  import opened Storage
  import opened Protocol
  import opened Defaults
  import opened Printer

  /** The scan loop of add, remove and check. */
  method FindCard(cards: seq<Card>, id: u32) returns (i: nat)
    ensures i == Find(cards, id)
  {
    i := 0;
    while i < |cards| && cards[i].id != id
      invariant i <= |cards|
      invariant forall j :: 0 <= j < i ==> cards[j].id != id
    {
      i := i + 1;
    }
  }

  /** The loop that closes the gap a removed card leaves. */
  method ShiftDown(cards: array<Card>, i: nat)
    requires i < cards.Length
    modifies cards
    ensures cards[..cards.Length - 1] == Without(old(cards[..]), i)
  {
    var j := i;
    while j < cards.Length - 1
      invariant i <= j <= cards.Length - 1
      invariant forall k :: 0 <= k < j ==> cards[k] == old(cards[if k < i then k else k + 1])
      invariant forall k :: j <= k < cards.Length ==> cards[k] == old(cards[k])
    {
      cards[j] := cards[j + 1];
      j := j + 1;
    }
  }

  /** Drops card `i` in the buffer the cards were read into. */
  method DropCard(stored: seq<Card>, i: nat) returns (left: seq<Card>)
    requires i < |stored|
    ensures left == Without(stored, i)
  {
    var cards := new Card[|stored|](k requires 0 <= k < |stored| => stored[k]);
    assert cards[..] == stored;
    ShiftDown(cards, i);
    left := cards[..|stored| - 1];
  }

  method ChecksumLoop(count: u16) returns (sum: u32)
    ensures sum == Checksum(count)
  {
    sum := 0;
    for i := 0 to count
      invariant sum == Checksum(i)
    {
      assert Checksum(i + 1) == sum + i;
      sum := sum + i;
    }
  }

  const NO_DATABASE := "Failed to read database"
  const NO_MEMORY := "Memory allocation failed"
  const NO_CARDS := "Failed to read cards"

  class RfidManager {
    const fs: FileSystem
    var held: bool  // rfid_mutex

    constructor (fs: FileSystem)
      ensures this.fs == fs && !held
    {
      this.fs := fs;
      held := false;
    }

    // Accesses to the database files, for the holder of the mutex.

    method Read(path: string, size: nat) returns (r: Option<bytes>)
      requires held && size != 0
      modifies fs`script
      ensures r == ReadBack(fs.files, path, size, Head(old(fs.script))) && fs.script == Tail(old(fs.script))
    {
      r := fs.ReadFile(path, size);
    }

    method Write(path: string, data: bytes, append: bool) returns (ok: bool)
      requires held && data != []
      modifies fs
      ensures (ok, fs.files) == Written(old(fs.files), path, data, append, Head(old(fs.script)))
      ensures fs.script == Tail(old(fs.script))
    {
      ok := fs.WriteFile(path, data, append);
    }

    method Present(path: string) returns (b: bool)
      requires held
      modifies fs`script
      ensures b == Exists(fs.files, path, Head(old(fs.script))) && fs.script == Tail(old(fs.script))
    {
      b := fs.FileExists(path);
    }

    method Size(path: string) returns (n: int)
      requires held
      modifies fs`script
      ensures n == FileSize(fs.files, path, Head(old(fs.script))) && fs.script == Tail(old(fs.script))
    {
      n := fs.GetFileSize(path);
    }

    method Unlink(path: string) returns (ok: bool)
      requires held
      modifies fs
      ensures (ok, fs.files) == Deleted(old(fs.files), path, Head(old(fs.script)))
      ensures fs.script == Tail(old(fs.script))
    {
      ok := fs.DeleteFile(path);
    }

    method Allocate() returns (ok: bool)
      requires held
      modifies fs`script
      ensures ok == !Head(old(fs.script)).Fails? && fs.script == Tail(old(fs.script))
    {
      ok := fs.Allocate();
    }

    method AddCard(id: u32, name: Option<CString>, at: Moment) returns (err: EspErr)
      requires !held
      modifies this, fs
      ensures !held
      ensures name.None? ==> err == InvalidArg && unchanged(fs)
      ensures name.Some? ==>
                (Code(err), fs.files, fs.script)
                == Call(Add(id, name.value, at.now, at.pad), old(fs.files), old(fs.script))
    {
      if name.None? {
        return InvalidArg;
      }
      held := true;
      ghost var op := Add(id, name.value, at.now, at.pad);
      ghost var end := Run(ReadHeader(op), fs.files, fs.script);
      assert Call(op, fs.files, fs.script) == end;
      hide Run, Step, Call, ReadBack, Written, DecodeHeader, EncodeHeader, DecodeCards, EncodeCard, NameField;
      RunReadHeader(op, fs.files, fs.script);
      var raw := Read(DB_PATH, HEADER_SIZE);
      if raw.None? {
        held := false;
        return Fail;
      }
      var db := DecodeHeader(raw.value);
      if db.count > 0 {
        RunAllocate(op, db, fs.files, fs.script);
        var room := Allocate();
        if !room {
          held := false;
          return NoMem;
        }
        RunReadCards(op, db, fs.files, fs.script);
        raw := Read(CARDS_PATH, CARD_SIZE * db.count);
        if raw.None? {
          held := false;
          return Fail;
        }
        var cards := DecodeCards(raw.value, db.count);
        var i := FindCard(cards, id);
        if i < db.count {
          held := false;
          RunFinished(Code(InvalidState), fs.files, fs.script);
          return InvalidState;
        }
      }
      assert end == Run(AddIfRoom(op, db), fs.files, fs.script);
      if db.count < db.max {
        var card := Card(id, 1, NameField(name.value), at.pad, at.now);
        db := db.(count := db.count + 1);
        RunWriteHeader(op, db, [], fs.files, fs.script);
        var ok := Write(DB_PATH, EncodeHeader(db), false);
        if !ok {
          held := false;
          return Fail;
        }
        RunAppendCard(db, card, fs.files, fs.script);
        ok := Write(CARDS_PATH, EncodeCard(card), true);
        if !ok {
          // Undo the count in the header; whether that works is not looked at
          db := db.(count := db.count - 1);
          ok := Write(DB_PATH, EncodeHeader(db), false);
          held := false;
          return Fail;
        }
        err := Ok;
      } else {
        RunFinished(Code(NoMem), fs.files, fs.script);
        err := NoMem;
      }
      held := false;
    }

    /** The second half of a removal: header first, then the cards file. */
    method WriteRemoval(id: u32, db: Header, left: seq<Card>) returns (err: EspErr)
      requires held && |left| == db.count
      modifies fs
      ensures (Code(err), fs.files, fs.script)
              == Run(WriteHeader(Remove(id), db, left), old(fs.files), old(fs.script))
    {
      ghost var op := Remove(id);
      hide Run, Step, Written, Deleted, EncodeHeader, EncodeCards;
      RunWriteHeader(op, db, left, fs.files, fs.script);
      var ok := Write(DB_PATH, EncodeHeader(db), false);
      if !ok {
        return Fail;
      }
      ok := true;
      if db.count > 0 {
        RunWriteCards(left, fs.files, fs.script);
        ok := Write(CARDS_PATH, EncodeCards(left), false);
      } else {
        // Nothing is left to store
        RunStatCards(op, db, fs.files, fs.script);
        var present := Present(CARDS_PATH);
        if present {
          RunUnlinkCards(op, fs.files, fs.script);
          ok := Unlink(CARDS_PATH);
        } else {
          RunFinished(Code(Ok), fs.files, fs.script);
        }
      }
      err := if ok then Ok else Fail;
    }

    /** Finds the card among those read, closes the gap and writes both files. */
    method RemoveFrom(id: u32, h: Header, stored: seq<Card>) returns (err: EspErr)
      requires held && |stored| == h.count
      modifies fs
      ensures (Code(err), fs.files, fs.script)
              == Run(AfterCards(Remove(id), h, stored), old(fs.files), old(fs.script))
    {
      hide Run;
      var i := FindCard(stored, id);
      if i == h.count {
        RunFinished(Code(NotFound), fs.files, fs.script);
        return NotFound;
      }
      var left := DropCard(stored, i);
      var db := h.(count := h.count - 1);
      err := WriteRemoval(id, db, left);
    }

    method RemoveCard(id: u32) returns (err: EspErr)
      requires !held
      modifies this, fs
      ensures !held
      ensures (Code(err), fs.files, fs.script) == Call(Remove(id), old(fs.files), old(fs.script))
    {
      if id == ADMIN_CARD_ID {
        return NotSupported;
      }
      held := true;
      ghost var op := Remove(id);
      ghost var end := Run(ReadHeader(op), fs.files, fs.script);
      assert Call(op, fs.files, fs.script) == end;
      hide Run, Step, Call, ReadBack, Written, Deleted, DecodeHeader, EncodeHeader, DecodeCards, EncodeCards, Find;
      RunReadHeader(op, fs.files, fs.script);
      var raw := Read(DB_PATH, HEADER_SIZE);
      if raw.None? {
        held := false;
        return Fail;
      }
      var db := DecodeHeader(raw.value);
      if db.count == 0 {
        held := false;
        RunFinished(Code(NotFound), fs.files, fs.script);
        return NotFound;
      }
      RunAllocate(op, db, fs.files, fs.script);
      var room := Allocate();
      if !room {
        held := false;
        return NoMem;
      }
      RunReadCards(op, db, fs.files, fs.script);
      raw := Read(CARDS_PATH, CARD_SIZE * db.count);
      if raw.None? {
        held := false;
        return Fail;
      }
      var stored := DecodeCards(raw.value, db.count);
      err := RemoveFrom(id, db, stored);
      held := false;
    }

    method CheckCard(id: u32) returns (err: EspErr)
      requires !held
      modifies this, fs`script
      ensures !held
      ensures (Code(err), fs.files, fs.script) == Call(Check(id), old(fs.files), old(fs.script))
    {
      held := true;
      ghost var op := Check(id);
      ghost var end := Run(ReadHeader(op), fs.files, fs.script);
      assert Call(op, fs.files, fs.script) == end;
      hide Run, Step, Call, ReadBack, DecodeHeader, DecodeCards;
      RunReadHeader(op, fs.files, fs.script);
      var raw := Read(DB_PATH, HEADER_SIZE);
      if raw.None? {
        held := false;
        return Fail;
      }
      var db := DecodeHeader(raw.value);
      if db.count == 0 {
        held := false;
        RunFinished(Code(NotFound), fs.files, fs.script);
        return NotFound;
      }
      RunAllocate(op, db, fs.files, fs.script);
      var room := Allocate();
      if !room {
        held := false;
        return NoMem;
      }
      RunReadCards(op, db, fs.files, fs.script);
      raw := Read(CARDS_PATH, CARD_SIZE * db.count);
      if raw.None? {
        held := false;
        return Fail;
      }
      var cards := DecodeCards(raw.value, db.count);
      err := NotFound;
      var i := FindCard(cards, id);
      if i < db.count {
        err := if cards[i].active != 0 then Ok else InvalidState;
      }
      RunFinished(Code(err), fs.files, fs.script);
      held := false;
    }

    method GetCardCount() returns (count: u16)
      requires !held
      modifies this, fs`script
      ensures !held
      ensures (Counted(count), fs.files, fs.script) == Call(Count, old(fs.files), old(fs.script))
    {
      held := true;
      hide Step, ReadBack, DecodeHeader;
      RunReadHeader(Count, fs.files, fs.script);
      var raw := Read(DB_PATH, HEADER_SIZE);
      held := false;
      if raw.None? {
        return 0;
      }
      var db := DecodeHeader(raw.value);
      RunFinished(Counted(db.count), fs.files, fs.script);
      count := db.count;
    }

    /** The cards the C code leaves in the caller's buffer are returned. */
    method ListCards(buffer: Option<u16>) returns (err: EspErr, cards: seq<Card>)
      requires !held
      modifies this, fs`script
      ensures !held
      ensures buffer.None? ==> err == InvalidArg && unchanged(fs)
      ensures buffer.Some? ==>
                (Listed(err, cards), fs.files, fs.script) == Call(List(buffer.value), old(fs.files), old(fs.script))
    {
      if buffer.None? {
        return InvalidArg, [];
      }
      held := true;
      ghost var op := List(buffer.value);
      ghost var end := Run(ReadHeader(op), fs.files, fs.script);
      assert Call(op, fs.files, fs.script) == end;
      hide Run, Step, Call, ReadBack, DecodeHeader, DecodeCards;
      RunReadHeader(op, fs.files, fs.script);
      var raw := Read(DB_PATH, HEADER_SIZE);
      if raw.None? {
        held := false;
        return Fail, [];
      }
      var db := DecodeHeader(raw.value);
      err, cards := Ok, [];
      if buffer.value < db.count {
        err := NoMem;
        RunFinished(Listed(NoMem, []), fs.files, fs.script);
      } else if db.count == 0 {
        RunFinished(Listed(Ok, []), fs.files, fs.script);
      } else {
        RunReadCards(op, db, fs.files, fs.script);
        raw := Read(CARDS_PATH, CARD_SIZE * db.count);
        if raw.None? {
          err := Fail;
        } else {
          cards := DecodeCards(raw.value, db.count);
          RunFinished(Listed(Ok, cards), fs.files, fs.script);
        }
      }
      held := false;
    }

    method SaveToFile() returns (err: EspErr)
      requires !held
      modifies this, fs
      ensures !held
      ensures (Code(err), fs.files, fs.script) == Call(Save, old(fs.files), old(fs.script))
    {
      held := true;
      ghost var end := Run(ReadHeader(Save), fs.files, fs.script);
      assert Call(Save, fs.files, fs.script) == end;
      hide Run, Step, Call, ReadBack, Written, DecodeHeader, EncodeHeader;
      RunReadHeader(Save, fs.files, fs.script);
      var raw := Read(DB_PATH, HEADER_SIZE);
      if raw.None? {
        held := false;
        return Fail;
      }
      var db := DecodeHeader(raw.value);
      var sum := ChecksumLoop(db.count);
      db := db.(checksum := sum);
      RunWriteHeader(Save, db, [], fs.files, fs.script);
      var ok := Write(DB_PATH, EncodeHeader(db), false);
      held := false;
      if !ok {
        return Fail;
      }
      RunFinished(Code(Ok), fs.files, fs.script);
      err := Ok;
    }

    method LoadFromFile() returns (err: EspErr)
      requires !held
      modifies this, fs`script
      ensures !held
      ensures (Code(err), fs.files, fs.script) == Call(Load, old(fs.files), old(fs.script))
    {
      held := true;
      ghost var end := Run(StatDb(Load), fs.files, fs.script);
      assert Call(Load, fs.files, fs.script) == end;
      hide Run, Step, Call, ReadBack, DecodeHeader;
      RunStatDb(Load, fs.files, fs.script);
      var present := Present(DB_PATH);
      if !present {
        held := false;
        return NotFound;
      }
      RunReadHeader(Load, fs.files, fs.script);
      var raw := Read(DB_PATH, HEADER_SIZE);
      if raw.None? {
        held := false;
        return Fail;
      }
      var db := DecodeHeader(raw.value);
      err := Ok;
      if db.count > db.max {
        err := InvalidState;
      } else if db.count > 0 {
        RunStatCards(Load, db, fs.files, fs.script);
        present := Present(CARDS_PATH);
        err := if present then Ok else InvalidState;
      }
      RunFinished(Code(err), fs.files, fs.script);
      held := false;
    }

    method FormatDatabase() returns (err: EspErr)
      requires !held
      modifies this, fs
      ensures !held
      ensures (Code(err), fs.files, fs.script) == Call(Format, old(fs.files), old(fs.script))
    {
      held := true;
      var db := EMPTY_HEADER;
      ghost var end := Run(WriteHeader(Format, db, []), fs.files, fs.script);
      assert Call(Format, fs.files, fs.script) == end;
      hide Run, Step, Call, Written, Deleted, EncodeHeader;
      RunWriteHeader(Format, db, [], fs.files, fs.script);
      var ok := Write(DB_PATH, EncodeHeader(db), false);
      if !ok {
        held := false;
        return Fail;
      }
      RunStatCards(Format, db, fs.files, fs.script);
      var present := Present(CARDS_PATH);
      if present {
        // A failed delete is not an error here
        RunUnlinkCards(Format, fs.files, fs.script);
        ok := Unlink(CARDS_PATH);
      } else {
        RunFinished(Code(Ok), fs.files, fs.script);
      }
      held := false;
      err := Ok;
    }

    method IsDatabaseValid() returns (valid: bool)
      requires !held
      modifies this, fs`script
      ensures !held
      ensures (Verdict(valid), fs.files, fs.script) == Call(Validate, old(fs.files), old(fs.script))
    {
      held := true;
      ghost var end := Run(StatDb(Validate), fs.files, fs.script);
      assert Call(Validate, fs.files, fs.script) == end;
      hide Run, Step, Call, ReadBack, DecodeHeader;
      RunStatDb(Validate, fs.files, fs.script);
      var present := Present(DB_PATH);
      if !present {
        held := false;
        return false;
      }
      RunReadHeader(Validate, fs.files, fs.script);
      var raw := Read(DB_PATH, HEADER_SIZE);
      if raw.None? {
        held := false;
        return false;
      }
      var db := DecodeHeader(raw.value);
      if db.count > db.max {
        held := false;
        RunFinished(Verdict(false), fs.files, fs.script);
        return false;
      }
      if db.count > 0 {
        RunStatCards(Validate, db, fs.files, fs.script);
        present := Present(CARDS_PATH);
        if !present {
          held := false;
          RunFinished(Verdict(false), fs.files, fs.script);
          return false;
        }
      }
      RunSizeCards(db, fs.files, fs.script);
      var actual := Size(CARDS_PATH);
      valid := !(db.count > 0 && actual != CARD_SIZE * db.count);
      held := false;
    }

    /**
     The buffer size is the length of the array. A buffer of one or two bytes is
     not for this function: it would write in front of it.
     */
    method GetCardListJson(buffer: array?<byte>) returns (err: EspErr)
      requires !held
      requires buffer != null ==> buffer.Length == 0 || buffer.Length >= 3
      requires var reply := Call(Dump, fs.files, fs.script).0;
               reply.Listed? && reply.err == Ok && buffer != null ==>
                 |reply.cards| <= 0xFFFF && Narrow(|reply.cards|, buffer.Length) && AllTerminated(reply.cards)
      modifies this, fs`script, if buffer == null then {} else {buffer}
      ensures !held && fs.files == old(fs.files)
      ensures buffer == null || buffer.Length == 0 ==> err == InvalidArg && unchanged(fs)
      ensures buffer != null && buffer.Length > 0 ==>
                var (reply, files', script') := Call(Dump, old(fs.files), old(fs.script));
                && fs.script == script' && files' == fs.files && reply.Listed?
                && if reply.err == Ok then
                     (buffer[..], err) == Output(|reply.cards|, reply.cards, buffer.Length)
                   else
                     && err == reply.err
                     && Reports(buffer[..],
                                if err == NoMem then "Memory allocation failed"
                                else if ReadBack(fs.files, DB_PATH, HEADER_SIZE, Head(old(fs.script))).None?
                                then "Failed to read database"
                                else "Failed to read cards")
    {
      if buffer == null || buffer.Length == 0 {
        return InvalidArg;
      }
      held := true;
      ghost var end := Run(ReadHeader(Dump), fs.files, fs.script);
      assert Call(Dump, fs.files, fs.script) == end;
      hide Run, Step, Call, ReadBack, DecodeHeader, DecodeCards, Output, Reports;
      RunReadHeader(Dump, fs.files, fs.script);
      var raw := Read(DB_PATH, HEADER_SIZE);
      if raw.None? {
        PrintError(buffer, NO_DATABASE);
        held := false;
        return Fail;
      }
      var db := DecodeHeader(raw.value);
      var cards := [];
      if db.count > 0 {
        RunAllocate(Dump, db, fs.files, fs.script);
        var room := Allocate();
        if !room {
          PrintError(buffer, NO_MEMORY);
          held := false;
          return NoMem;
        }
        RunReadCards(Dump, db, fs.files, fs.script);
        raw := Read(CARDS_PATH, CARD_SIZE * db.count);
        if raw.None? {
          PrintError(buffer, NO_CARDS);
          held := false;
          return Fail;
        }
        cards := DecodeCards(raw.value, db.count);
      }
      RunFinished(Listed(Ok, cards), fs.files, fs.script);
      err := PrintList(db.count, cards, buffer);
      held := false;
    }

    /** Creates an empty database file if there is none; both callers do this without the mutex. */
    method EnsureDatabase() returns (ok: bool)
      requires !held
      modifies fs
      ensures (ok, fs.files, fs.script) == Ensured(old(fs.files), old(fs.script))
    {
      hide EncodeHeader, Written;
      var present := fs.FileExists(DB_PATH);
      ok := true;
      if !present {
        ok := fs.WriteFile(DB_PATH, EncodeHeader(EMPTY_HEADER), false);
      }
    }

    method Init() returns (err: EspErr)
      requires !held
      modifies this, fs
      ensures !held
      ensures (Code(err), fs.files, fs.script) == InitRun(old(fs.files), old(fs.script))
    {
      hide Call, Ensured;
      var ok := EnsureDatabase();
      if !ok {
        return Fail;
      }
      err := LoadFromFile();
    }

    method LoadDefaults(at: seq<Moment>) returns (err: EspErr)
      requires !held && |at| == 3
      modifies this, fs
      ensures !held
      ensures (Code(err), fs.files, fs.script) == LoadRun(at, old(fs.files), old(fs.script))
    {
      hide Call, Ensured, DefaultCards;
      ghost var all := LoadRun(at, fs.files, fs.script);
      ghost var ops := DefaultAdds(at);
      var ok := EnsureDatabase();
      if !ok {
        return Fail;
      }
      var i := 0;
      while i < 3
        invariant 0 <= i <= 3 && !held
        invariant AddsRun(ops[i..], fs.files, fs.script) == all
      {
        assert ops[i] == AddDefault(i, at[i]);
        assert ops[i..][0] == ops[i] && ops[i..][1..] == ops[i + 1..];
        var card := DefaultCards()[i];
        var added := AddCard(card.id, Some(card.name), at[i]);
        if added != Ok && added != InvalidState {
          return added;
        }
        i := i + 1;
      }
      err := Ok;
    }

    method ResetToDefaults(at: seq<Moment>) returns (err: EspErr)
      requires !held && |at| == 3
      modifies this, fs
      ensures !held
      ensures (Code(err), fs.files, fs.script) == ResetRun(at, old(fs.files), old(fs.script))
    {
      hide Call, LoadRun;
      err := FormatDatabase();
      if err != Ok {
        return;
      }
      err := LoadDefaults(at);
    }
  }
}
