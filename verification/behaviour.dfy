/**
 What a caller sees of each database call, in literal values: ids, names, times,
 result codes, file names and bytes. Everything here follows from the machine
 and the list, but is said without their functions.
 */
module Behaviour {
  import opened Base
  import opened Codec
  import opened Storage
  import opened Protocol
  import opened CardList
  import opened Refinement
  import opened Crash
  import opened Defaults

  // ---- On a disk that stands for a list, without faults ----

  /** No card has this id. */
  ghost predicate Absent(cards: seq<Card>, id: u32) {
    forall i :: 0 <= i < |cards| ==> cards[i].id != id
  }

  /** The first card with this id stands here. */
  predicate FirstAt(cards: seq<Card>, id: u32, i: nat) {
    i < |cards| && cards[i].id == id && forall j :: 0 <= j < i ==> cards[j].id != id
  }

  lemma FindFirst(cards: seq<Card>, id: u32)
    ensures Absent(cards, id) <==> Find(cards, id) == |cards|
    ensures forall i :: FirstAt(cards, id, i) ==> i == Find(cards, id)
  {
  }

  /** A later dump shows the whole list. */
  lemma DumpShows(files: Files, db: Db, later: seq<Outcome>)
    requires Represents(files, db) && Quiet(later)
    ensures Call(Dump, files, later).0 == Listed(Ok, db.cards)
  {
    hide Run, Represents;
    CallRefines(Dump, db, files, later);
  }

  /** What an add with these arguments stores: name bytes behind the 31st are dropped, the rest of the field is zero. */
  predicate Holds(c: Card, id: u32, name: CString, now: u32) {
    && c.id == id && c.active == 1 && c.timestamp == now
    && UpToNul(c.name) == name[..Min(|name|, 31)]
    && forall i :: |name| <= i < 32 ==> c.name[i] == 0
  }

  lemma NewCardHolds(id: u32, name: CString, now: u32, pad: Pad)
    ensures Holds(NewCard(Add(id, name, now, pad)), id, name, now)
  {
    hide UpToNul;
  }

  /**
   An add is refused if the id is there, or if the list is full, and then writes
   nothing; otherwise one active card with the id, the name and the time follows
   the cards that were there.
   */
  lemma AddStores(files: Files, db: Db, id: u32, name: CString, now: u32, pad: Pad,
                  script: seq<Outcome>, later: seq<Outcome>)
    requires Represents(files, db) && Quiet(script) && Quiet(later)
    ensures var (reply, files', _) := Call(Add(id, name, now, pad), files, script);
            var dump := Call(Dump, files', later).0;
            if !Absent(db.cards, id) then reply == Code(InvalidState) && files' == files
            else if |db.cards| >= db.max then reply == Code(NoMem) && files' == files
            else
              && reply == Code(Ok) && dump.Listed? && dump.err == Ok
              && |dump.cards| == |db.cards| + 1 && dump.cards[..|db.cards|] == db.cards
              && Holds(dump.cards[|db.cards|], id, name, now)
  {
    hide Run, Call, Represents, Holds, NewCard, Quiet;
    var op := Add(id, name, now, pad);
    FindFirst(db.cards, id);
    CallRefines(op, db, files, script);
    if Answer(db, op) != Code(Ok) {
      TurnedDownAdd(op, db, files, script);
    } else {
      DumpShows(Call(op, files, script).1, Apply(db, op), later);
      NewCardHolds(id, name, now, pad);
    }
  }

  /** A removal takes out the first card with the id and nothing else; the admin card is refused unread. */
  lemma RemoveTakesOut(files: Files, db: Db, id: u32, i: nat, script: seq<Outcome>, later: seq<Outcome>)
    requires Represents(files, db) && Quiet(script) && Quiet(later)
    ensures var (reply, files', rest) := Call(Remove(id), files, script);
            var dump := Call(Dump, files', later).0;
            if id == 0x12345678 then reply == Code(NotSupported) && files' == files && rest == script
            else
              && (Absent(db.cards, id) ==> reply == Code(NotFound) && dump == Listed(Ok, db.cards))
              && (FirstAt(db.cards, id, i) ==>
                    reply == Code(Ok) && dump == Listed(Ok, db.cards[..i] + db.cards[i + 1..]))
  {
    hide Run, Represents, Quiet;
    FindFirst(db.cards, id);
    if id != 0x12345678 {
      CallRefines(Remove(id), db, files, script);
      DumpShows(Call(Remove(id), files, script).1, Apply(db, Remove(id)), later);
    }
  }

  lemma RepresentsFits(files: Files, db: Db)
    requires Represents(files, db)
    ensures Fits(db)
  {
  }

  /** Check, count and the two ways to list. */
  lemma ReadsTell(files: Files, db: Db, id: u32, i: nat, room: u16, script: seq<Outcome>)
    requires Represents(files, db) && Quiet(script)
    ensures Absent(db.cards, id) ==> Call(Check(id), files, script).0 == Code(NotFound)
    ensures FirstAt(db.cards, id, i) ==>
              Call(Check(id), files, script).0 == Code(if db.cards[i].active == 0 then InvalidState else Ok)
    ensures Call(Count, files, script).0 == Counted(|db.cards|)
    ensures Call(Dump, files, script).0 == Listed(Ok, db.cards)
    ensures Call(List(room), files, script).0
            == if |db.cards| <= room then Listed(Ok, db.cards) else Listed(NoMem, [])
    ensures Call(Load, files, script).0 == Code(Ok) && Call(Validate, files, script).0 == Verdict(true)
  {
    hide Run, Call, Represents, Quiet;
    FindFirst(db.cards, id);
    CallRefines(Check(id), db, files, script);
    CallRefines(Count, db, files, script);
    CallRefines(Dump, db, files, script);
    CallRefines(List(room), db, files, script);
    CallRefines(Load, db, files, script);
    CallRefines(Validate, db, files, script);
    assert Fits(db) by { RepresentsFits(files, db); }
  }

  lemma {:induction false} ChecksumIs(count: u16)
    ensures 2 * Checksum(count) == count * (count - 1)
  {
    if count == 0 {
    } else {
      ChecksumIs(count - 1);
    }
  }

  /** A save puts the sum of the indices into the header and changes nothing else. */
  lemma SaveSums(files: Files, db: Db, script: seq<Outcome>) returns (sum: u32)
    requires Represents(files, db) && Quiet(script)
    ensures 2 * sum == |db.cards| * (|db.cards| - 1)
    ensures var (reply, files', _) := Call(Save, files, script);
            reply == Code(Ok) && Represents(files', Db(db.max, sum, db.cards))
  {
    hide Run, Call, Represents, Quiet, Checksum;
    RepresentsFits(files, db);
    CallRefines(Save, db, files, script);
    ChecksumIs(|db.cards|);
    sum := Checksum(|db.cards|);
  }

  /** A format of any disk leaves these eight bytes, no cards file, and every other file as it was. */
  lemma FormatLeaves(files: Files, script: seq<Outcome>)
    requires Quiet(script)
    ensures var (reply, files', _) := Call(Format, files, script);
            && reply == Code(Ok)
            && "/spiffs/rfid_database.bin" in files' && "/spiffs/rfid_cards.bin" !in files'
            && files'["/spiffs/rfid_database.bin"] == [0, 0, 200, 0, 0, 0, 0, 0]
            && forall p :: p in files' && p != "/spiffs/rfid_database.bin" ==> p in files && files'[p] == files[p]
  {
    PathsDiffer();
    hide Run, Step;
    var script1 := Tail(script);
    var script2 := Tail(script1);
    QuietTail(script);
    QuietTail(script1);
    QuietTail(script2);
    var b := EncodeHeader(EMPTY_HEADER);
    assert b == [0, 0, 200, 0, 0, 0, 0, 0];
    assert [] + b[..8] == b;
    var files1 := files[DB_PATH := b];
    RunWriteHeader(Format, EMPTY_HEADER, [], files, script);
    RunStatCards(Format, EMPTY_HEADER, files1, script1);
    RunUnlinkCards(Format, files1, script2);
    RunFinished(Code(Ok), files1, script2);
  }

  /** What the unlink does is not looked at: if it fails, or stat does, the cards file stays and the result is OK. */
  lemma FormatIgnoresUnlink(files: Files, script: seq<Outcome>)
    requires |script| >= 3 && script[0].Success? && (script[1].Fails? || (script[1].Success? && script[2].Fails?))
    requires "/spiffs/rfid_cards.bin" in files
    ensures var (reply, files', _) := Call(Format, files, script);
            && reply == Code(Ok) && "/spiffs/rfid_cards.bin" in files'
            && files'["/spiffs/rfid_cards.bin"] == files["/spiffs/rfid_cards.bin"]
  {
    PathsDiffer();
    hide Run, Step, EncodeHeader;
    var b := EncodeHeader(EMPTY_HEADER);
    assert [] + b[..8] == b;
    var files1 := files[DB_PATH := b];
    assert script[1..][1..] == script[2..];
    RunWriteHeader(Format, EMPTY_HEADER, [], files, script);
    RunStatCards(Format, EMPTY_HEADER, files1, script[1..]);
    RunUnlinkCards(Format, files1, script[2..]);
    RunFinished(Code(Ok), files1, script[2..]);
  }

  // ---- On any disk, with any outcomes ----

  /** The count and the capacity in eight header bytes. */
  function CountIn(b: bytes): nat
    requires |b| == 8
  {
    b[0] as int + 256 * (b[1] as int)
  }

  function MaxIn(b: bytes): nat
    requires |b| == 8
  {
    b[2] as int + 256 * (b[3] as int)
  }

  lemma HeaderIn(b: bytes)
    requires |b| == 8
    ensures DecodeHeader(b).count == CountIn(b) && DecodeHeader(b).max == MaxIn(b)
  {
  }

  function HeaderRead(files: Files, o: Outcome): (r: Option<bytes>)
    ensures r.Some? ==> |r.value| == 8
  {
    ReadBack(files, "/spiffs/rfid_database.bin", 8, o)
  }

  function CardsRead(files: Files, count: nat, o: Outcome): (r: Option<bytes>)
    ensures r.Some? ==> |r.value| == 44 * count
  {
    ReadBack(files, "/spiffs/rfid_cards.bin", 44 * count, o)
  }

  /** The calls that begin by reading the header. */
  predicate ReadsHeader(op: Op) {
    op.Add? || (op.Remove? && op.id != 0x12345678) || op.Check? || op.Count? || op.List? || op.Dump? || op.Save?
  }

  /** Without a header file, or if it cannot be opened, they fail, and the count is 0. */
  lemma NoHeader(op: Op, files: Files, script: seq<Outcome>)
    requires ReadsHeader(op)
    requires "/spiffs/rfid_database.bin" !in files || Head(script).Fails?
    ensures var (reply, files', rest) := Call(op, files, script);
            && files' == files && rest == Tail(script)
            && reply == if op.Count? then Counted(0)
                        else if op.List? || op.Dump? then Listed(Fail, [])
                        else Code(Fail)
  {
    hide Run, Step;
    RunReadHeader(op, files, script);
  }

  /** Without memory for the cards nothing is read or written. */
  lemma NoMemory(op: Op, files: Files, script: seq<Outcome>)
    requires op.Add? || (op.Remove? && op.id != 0x12345678) || op.Check? || op.Dump?
    requires var b := HeaderRead(files, Head(script));
             b.Some? && CountIn(b.value) > 0 && Head(Tail(script)).Fails?
    ensures var (reply, files', _) := Call(op, files, script);
            files' == files && reply == if op.Dump? then Listed(NoMem, []) else Code(NoMem)
  {
    hide Run, Step, ReadBack, DecodeHeader;
    var b := HeaderRead(files, Head(script)).value;
    HeaderIn(b);
    RunReadHeader(op, files, script);
    RunAllocate(op, DecodeHeader(b), files, Tail(script));
  }

  /** Without the cards file the calls that need it fail and write nothing. */
  lemma NoCards(op: Op, files: Files, script: seq<Outcome>)
    requires op.Add? || (op.Remove? && op.id != 0x12345678) || op.Check? || op.Dump?
    requires var b := HeaderRead(files, Head(script));
             && b.Some? && CountIn(b.value) > 0 && !Head(Tail(script)).Fails?
             && CardsRead(files, CountIn(b.value), Head(Tail(Tail(script)))).None?
    ensures var (reply, files', _) := Call(op, files, script);
            files' == files && reply == if op.Dump? then Listed(Fail, []) else Code(Fail)
  {
    hide Run, Step, ReadBack, DecodeHeader;
    var b := HeaderRead(files, Head(script)).value;
    HeaderIn(b);
    RunReadHeader(op, files, script);
    RunAllocate(op, DecodeHeader(b), files, Tail(script));
    RunReadCards(op, DecodeHeader(b), files, Tail(Tail(script)));
  }

  /** Listing into a buffer: too small, nothing to list, no cards file, or the cards. */
  lemma ListTells(room: u16, files: Files, script: seq<Outcome>)
    requires HeaderRead(files, Head(script)).Some?
    ensures var n := CountIn(HeaderRead(files, Head(script)).value);
            var raw := CardsRead(files, n, Head(Tail(script)));
            var (reply, files', _) := Call(List(room), files, script);
            && files' == files
            && reply == if room < n then Listed(NoMem, [])
                        else if n == 0 then Listed(Ok, [])
                        else if raw.None? then Listed(Fail, [])
                        else Listed(Ok, DecodeCards(raw.value, n))
  {
    hide Run, Step, ReadBack, DecodeHeader, DecodeCards;
    var b := HeaderRead(files, Head(script)).value;
    var h, rest := DecodeHeader(b), Tail(script);
    HeaderIn(b);
    RunReadHeader(List(room), files, script);
    RunReadCards(List(room), h, files, rest);
    RunFinished(Listed(NoMem, []), files, rest);
    RunFinished(Listed(Ok, []), files, rest);
    match CardsRead(files, h.count, Head(rest))
    case None =>
    case Some(raw) => RunFinished(Listed(Ok, DecodeCards(raw, h.count)), files, Tail(rest));
  }

  /** What a check says of these records. */
  ghost predicate Checked(cards: seq<Card>, id: u32, reply: Reply) {
    && (Absent(cards, id) ==> reply == Code(NotFound))
    && (forall i: nat :: FirstAt(cards, id, i) ==>
          reply == Code(if cards[i].active == 0 then InvalidState else Ok))
    && (reply == Code(Ok) <==> exists i: nat :: FirstAt(cards, id, i) && cards[i].active != 0)
  }

  lemma CheckedCards(cards: seq<Card>, id: u32, h: Header)
    requires |cards| == h.count
    ensures var pc := AfterCards(Check(id), h, cards); pc.Finished? && Checked(cards, id, pc.reply)
  {
    FindFirst(cards, id);
    if Find(cards, id) < |cards| {
      assert FirstAt(cards, id, Find(cards, id));
    }
  }

  /**
   Access is granted only to a card that was read: the header could be read and
   counts cards, the memory was there, the cards could be read, and the first
   record with the id is active. Every other case has its own result code.
   */
  lemma CheckTells(id: u32, files: Files, script: seq<Outcome>)
    ensures var header := HeaderRead(files, Head(script));
            var reply := Call(Check(id), files, script).0;
            if header.None? then reply == Code(Fail)
            else
              var n := CountIn(header.value);
              if n == 0 then reply == Code(NotFound)
              else if Head(Tail(script)).Fails? then reply == Code(NoMem)
              else
                var raw := CardsRead(files, n, Head(Tail(Tail(script))));
                if raw.None? then reply == Code(Fail)
                else Checked(DecodeCards(raw.value, n), id, reply)
  {
    hide Run, Step, ReadBack, DecodeHeader, DecodeCards;
    var op := Check(id);
    RunReadHeader(op, files, script);
    match HeaderRead(files, Head(script))
    case None =>
    case Some(b) =>
      var h := DecodeHeader(b);
      var script1 := Tail(script);
      var script2 := Tail(script1);
      HeaderIn(b);
      RunFinished(Code(NotFound), files, script1);
      RunAllocate(op, h, files, script1);
      RunReadCards(op, h, files, script2);
      match CardsRead(files, h.count, Head(script2))
      case None =>
      case Some(raw) =>
        var cards := DecodeCards(raw, h.count);
        CheckedCards(cards, id, h);
        RunFinished(AfterCards(op, h, cards).reply, files, Tail(script2));
  }

  /** What boot reads, with every result code. */
  lemma LoadTells(files: Files, script: seq<Outcome>)
    ensures var header := HeaderRead(files, Head(Tail(script)));
            var (reply, files', _) := Call(Load, files, script);
            && files' == files
            && reply == if "/spiffs/rfid_database.bin" !in files || Head(script).Fails? then Code(NotFound)
                        else if header.None? then Code(Fail)
                        else if CountIn(header.value) > MaxIn(header.value) then Code(InvalidState)
                        else if CountIn(header.value) > 0
                                && ("/spiffs/rfid_cards.bin" !in files || Head(Tail(Tail(script))).Fails?)
                        then Code(InvalidState)
                        else Code(Ok)
  {
    hide Run, Step, ReadBack, DecodeHeader;
    var rest := Tail(Tail(script));
    RunStatDb(Load, files, script);
    RunReadHeader(Load, files, Tail(script));
    match HeaderRead(files, Head(Tail(script)))
    case None =>
    case Some(b) =>
      HeaderIn(b);
      RunStatCards(Load, DecodeHeader(b), files, rest);
      RunFinished(Code(InvalidState), files, rest);
      RunFinished(Code(Ok), files, rest);
      RunFinished(Code(InvalidState), files, Tail(rest));
      RunFinished(Code(Ok), files, Tail(rest));
  }

  /** The validity check, likewise. */
  lemma ValidateTells(files: Files, script: seq<Outcome>)
    ensures var header := HeaderRead(files, Head(Tail(script)));
            var (reply, files', _) := Call(Validate, files, script);
            && files' == files && reply.Verdict?
            && (reply.valid <==>
                  && "/spiffs/rfid_database.bin" in files && !Head(script).Fails? && header.Some?
                  && CountIn(header.value) <= MaxIn(header.value)
                  && (CountIn(header.value) > 0 ==>
                        && "/spiffs/rfid_cards.bin" in files
                        && !Head(Tail(Tail(script))).Fails? && !Head(Tail(Tail(Tail(script)))).Fails?
                        && |files["/spiffs/rfid_cards.bin"]| == 44 * CountIn(header.value)))
  {
    hide Run, Step, ReadBack, DecodeHeader;
    var script2 := Tail(Tail(script));
    RunStatDb(Validate, files, script);
    RunReadHeader(Validate, files, Tail(script));
    match HeaderRead(files, Head(Tail(script)))
    case None =>
    case Some(b) =>
      var h := DecodeHeader(b);
      HeaderIn(b);
      RunFinished(Verdict(false), files, script2);
      RunStatCards(Validate, h, files, script2);
      RunFinished(Verdict(false), files, Tail(script2));
      RunSizeCards(h, files, script2);
      RunSizeCards(h, files, Tail(script2));
  }

  // ---- The capacity ----

  /** The files after these calls, one after the other and without faults. */
  function AfterAll(files: Files, ops: seq<Op>): Files {
    if ops == [] then files
    else
      var n := |ops| - 1;
      Call(ops[n], AfterAll(files, ops[..n]), []).1
  }

  /** A list of the first of these adds, as many as fit. */
  ghost predicate Filled(db: Db, ops: seq<Op>)
    requires DistinctAdds(ops)
  {
    && db.max == 200 && |db.cards| == Min(|ops|, 200)
    && forall i :: 0 <= i < |db.cards| ==> db.cards[i].id == ops[i].id
  }

  lemma OneMore(db: Db, ops: seq<Op>)
    requires DistinctAdds(ops) && ops != [] && Filled(db, ops[..|ops| - 1])
    ensures var op := ops[|ops| - 1];
            Absent(db.cards, op.id) && Filled(Apply(db, op), ops)
            && Answer(db, op) == Code(if |ops| <= 200 then Ok else NoMem)
  {
    var op := ops[|ops| - 1];
    assert Absent(db.cards, op.id);
    FindFirst(db.cards, op.id);
    NewCardHolds(op.id, op.name, op.now, op.pad);
    hide NewCard;
  }

  lemma {:induction false} FillsUp(files: Files, ops: seq<Op>) returns (db: Db)
    requires Represents(files, EMPTY) && DistinctAdds(ops)
    ensures Represents(AfterAll(files, ops), db) && Filled(db, ops)
    decreases |ops|
  {
    if ops == [] {
      db := EMPTY;
    } else {
      hide Call, Represents, NewCard, Filled, Apply, Answer;
      var n := |ops| - 1;
      var before := FillsUp(files, ops[..n]);
      CallRefines(ops[n], before, AfterAll(files, ops[..n]), []);
      OneMore(before, ops);
      db := Apply(before, ops[n]);
    }
  }

  /** Of any adds of different ids to a formatted database the first two hundred are accepted, and no more. */
  lemma TwoHundredFit(any: Files, ops: seq<Op>, i: nat)
    requires DistinctAdds(ops) && i < |ops|
    ensures var files := AfterAll(Call(Format, any, []).1, ops[..i]);
            Call(ops[i], files, []).0 == Code(if i < 200 then Ok else NoMem)
  {
    hide Call, Represents, AfterAll, Filled, Answer;
    FormatFromAnything(any, []);
    var files := Call(Format, any, []).1;
    var db := FillsUp(files, ops[..i]);
    assert ops[..i + 1][..i] == ops[..i];
    OneMore(db, ops[..i + 1]);
    CallRefines(ops[i], db, AfterAll(files, ops[..i]), []);
  }

  // ---- Start-up ----

  /** From any disk a reset leaves these three cards, in this order. */
  lemma ResetStores(at: seq<Moment>, files: Files, script: seq<Outcome>, later: seq<Outcome>)
    requires |at| == 3 && Quiet(script) && Quiet(later)
    ensures var (reply, files', _) := ResetRun(at, files, script);
            var dump := Call(Dump, files', later).0;
            && reply == Code(Ok) && dump.Listed? && dump.err == Ok && |dump.cards| == 3
            && Holds(dump.cards[0], 0x12345678, Ascii("Admin Card"), at[0].now)
            && Holds(dump.cards[1], 0x87654321, Ascii("User Card 1"), at[1].now)
            && Holds(dump.cards[2], 0xABCDEF00, Ascii("User Card 2"), at[2].now)
  {
    hide Call, Represents, Holds, NewCard, ResetRun, Quiet, Ascii;
    var ops := DefaultAdds(at);
    ResetLoads(at, files, script);
    var cards := [NewCard(ops[0]), NewCard(ops[1]), NewCard(ops[2])];
    DumpShows(ResetRun(at, files, script).1, EMPTY.(cards := cards), later);
    NewCardHolds(0x12345678, Ascii("Admin Card"), at[0].now, at[0].pad);
    NewCardHolds(0x87654321, Ascii("User Card 1"), at[1].now, at[1].pad);
    NewCardHolds(0xABCDEF00, Ascii("User Card 2"), at[2].now, at[2].pad);
  }

  /** Where start-up goes on. */
  predicate GoesOn(reply: Reply) {
    reply == Code(Ok) || reply == Code(InvalidState)
  }

  /** The next call, if start-up goes on. */
  function Then(r: (Reply, Files, seq<Outcome>), op: Op): (Reply, Files, seq<Outcome>) {
    if GoesOn(r.0) then Call(op, r.1, r.2) else r
  }

  lemma ThenAdds(r: (Reply, Files, seq<Outcome>), ops: seq<Op>)
    requires ops != [] && GoesOn(r.0)
    ensures var next := Then(r, ops[0]);
            AddsRun(ops, r.1, r.2) == if GoesOn(next.0) then AddsRun(ops[1..], next.1, next.2) else next
  {
    hide Call;
  }

  lemma ThenStops(r: (Reply, Files, seq<Outcome>), op: Op)
    ensures !GoesOn(r.0) ==> Then(r, op) == r
  {
  }

  lemma NoAdds(files: Files, script: seq<Outcome>)
    ensures AddsRun([], files, script) == (Code(Ok), files, script)
  {
  }

  /** Loading the defaults makes these three adds one after the other, and ends with the first that fails otherwise. */
  lemma LoadGoesOn(at: seq<Moment>, files: Files, script: seq<Outcome>, admin: CString, user1: CString, user2: CString)
    requires admin == Ascii("Admin Card") && user1 == Ascii("User Card 1") && user2 == Ascii("User Card 2")
    requires |at| == 3 && "/spiffs/rfid_database.bin" in files && !Head(script).Fails?
    ensures var r0 := Then((Code(Ok), files, Tail(script)), Add(0x12345678, admin, at[0].now, at[0].pad));
            var r1 := Then(r0, Add(0x87654321, user1, at[1].now, at[1].pad));
            var r2 := Then(r1, Add(0xABCDEF00, user2, at[2].now, at[2].pad));
            LoadRun(at, files, script) == if GoesOn(r2.0) then (Code(Ok), r2.1, r2.2) else r2
  {
    hide Call, Then, AddsRun, Ascii;
    var ops := DefaultAdds(at);
    var start := (Code(Ok), files, Tail(script));
    ThenAdds(start, ops);
    var r0 := Then(start, ops[0]);
    assert ops[1..] == [ops[1], ops[2]] && ops[1..][1..] == [ops[2]] && [ops[2]][1..] == [];
    ThenStops(r0, ops[1]);
    if GoesOn(r0.0) {
      ThenAdds(r0, [ops[1], ops[2]]);
      var r1 := Then(r0, ops[1]);
      if GoesOn(r1.0) {
        ThenAdds(r1, [ops[2]]);
        var r2 := Then(r1, ops[2]);
        NoAdds(r2.1, r2.2);
      }
    }
    ThenStops(Then(r0, ops[1]), ops[2]);
  }

  /** If the missing header cannot be created, start-up fails and the disk is as it was. */
  lemma StartUpFails(at: seq<Moment>, files: Files, script: seq<Outcome>)
    requires |at| == 3 && "/spiffs/rfid_database.bin" !in files && Head(Tail(script)).Fails?
    ensures InitRun(files, script) == (Code(Fail), files, Tail(Tail(script)))
    ensures LoadRun(at, files, script) == (Code(Fail), files, Tail(Tail(script)))
  {
  }

  /** A reset whose format fails loads nothing. */
  lemma ResetStops(at: seq<Moment>, files: Files, script: seq<Outcome>)
    requires |at| == 3 && (Head(script).Fails? || (Head(script).Short? && Head(script).moved < 8))
    ensures ResetRun(at, files, script) == Call(Format, files, script)
    ensures Call(Format, files, script).0 == Code(Fail)
  {
    hide Run, Step, EncodeHeader;
    RunWriteHeader(Format, EMPTY_HEADER, [], files, script);
  }
}
