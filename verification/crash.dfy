/**
 What is left on disk when a call does not run to its end: power lost between
 two accesses, or a write that fails half way.
 */
module Crash {
  import opened Base
  import opened Codec
  import opened Storage
  import opened Protocol
  import opened CardList
  import opened Refinement

  /** Where the call is, and what the disk holds, after its first `k` accesses. */
  function After(pc: Pc, files: Files, script: seq<Outcome>, k: nat): (Pc, Files)
    decreases k
  {
    if k == 0 || pc.Finished? then (pc, files)
    else
      var (pc', files') := Step(pc, files, Head(script));
      After(pc', files', Tail(script), k - 1)
  }

  lemma {:induction false} AfterKeepsOutline(op: Op, db: Db, pc: Pc, files: Files, script: seq<Outcome>, k: nat)
    requires Fits(db) && Outline(op, db, pc, files) && Refused(op).None? && Quiet(script)
    ensures var (pc', files') := After(pc, files, script, k); Outline(op, db, pc', files')
    decreases k
  {
    hide Outline, Step;
    if k != 0 && !pc.Finished? {
      QuietTail(script);
      StepKeepsOutline(op, db, pc, files, Head(script));
      var (pc', files') := Step(pc, files, Head(script));
      AfterKeepsOutline(op, db, pc', files', Tail(script), k - 1);
    }
  }

  lemma AfterUnfolds(pc: Pc, files: Files, script: seq<Outcome>, k: nat, pc': Pc, files': Files)
    requires !pc.Finished? && k != 0 && Step(pc, files, Head(script)) == (pc', files')
    ensures After(pc, files, script, k) == After(pc', files', Tail(script), k - 1)
  {
  }

  lemma AfterNothing(pc: Pc, files: Files, script: seq<Outcome>)
    ensures After(pc, files, script, 0) == (pc, files)
  {
  }

  /** rfid_manager_is_database_valid on a disk at rest. */
  predicate Validates(files: Files) {
    Call(Validate, files, []).0 == Verdict(true)
  }

  predicate WholeHeader(files: Files) {
    DB_PATH in files && |files[DB_PATH]| == HEADER_SIZE
  }

  function HeaderOn(files: Files): Header
    requires WholeHeader(files)
  {
    DecodeHeader(files[DB_PATH])
  }

  lemma ValidatesIff(files: Files)
    requires WholeHeader(files)
    ensures Validates(files) <==>
            var h := HeaderOn(files);
            && h.count <= h.max
            && (h.count > 0 ==> CARDS_PATH in files && |files[CARDS_PATH]| == CARD_SIZE * h.count)
  {
    var h := HeaderOn(files);
    assert files[DB_PATH][..HEADER_SIZE] == files[DB_PATH];
    RunUnfolds(StatDb(Validate), files, []);
    RunUnfolds(ReadHeader(Validate), files, []);
    if h.count <= h.max {
      if h.count > 0 {
        RunUnfolds(StatCards(Validate, h), files, []);
      }
      RunUnfolds(SizeCards(h), files, []);
    }
  }

  lemma RepresentsValidates(files: Files, db: Db)
    requires Represents(files, db)
    ensures WholeHeader(files) && HeaderOn(files) == HeaderOf(db) && Validates(files)
  {
    RepresentsOne(files, db);
    ValidatesIff(files);
  }

  /** Program points after the header write and before the cards-file write or unlink. */
  predicate BetweenWrites(op: Op, pc: Pc) {
    pc.AppendCard? || pc.WriteCards? || ((pc.StatCards? || pc.UnlinkCards?) && (op.Remove? || op.Format?))
  }

  lemma TornValidates(op: Op, db: Db, pc: Pc, files: Files)
    requires Fits(db) && Outline(op, db, pc, files) && BetweenWrites(op, pc)
    ensures WholeHeader(files) && HeaderOn(files) == HeaderOf(Apply(db, op))
    ensures Validates(files) <==> HeaderOn(files).count == 0
  {
    HeaderRoundTrip(HeaderOf(Apply(db, op)));
    ValidatesIff(files);
  }

  lemma WholeOrTorn(op: Op, db: Db, pc: Pc, files: Files)
    requires Fits(db) && Outline(op, db, pc, files)
    ensures BetweenWrites(op, pc) || Represents(files, db) || Represents(files, Apply(db, op))
  {
  }

  /**
   Stop any call after any number of accesses. Between its two writes the
   database is reported invalid unless the header counts no cards; and at every
   point it is reported valid only if the disk holds the list from before the
   call, the list from after it, or such a header.
   */
  lemma TornUpdatesDetected(op: Op, db: Db, files: Files, script: seq<Outcome>, k: nat)
    requires Represents(files, db) && Refused(op).None? && Quiet(script)
    ensures var (pc', files') := After(Begin(op), files, script, k);
            && WholeHeader(files')
            && (BetweenWrites(op, pc') ==> (Validates(files') <==> HeaderOn(files').count == 0))
            && (Validates(files') <==>
                  Represents(files', db) || Represents(files', Apply(db, op)) || HeaderOn(files').count == 0)
  {
    var (pc', files') := After(Begin(op), files, script, k);
    BeginOutline(op, db, files);
    AfterKeepsOutline(op, db, Begin(op), files, script, k);
    WholeOrTorn(op, db, pc', files');
    if BetweenWrites(op, pc') {
      TornValidates(op, db, pc', files');
    }
    if Represents(files', db) {
      RepresentsValidates(files', db);
    }
    if Represents(files', Apply(db, op)) {
      RepresentsValidates(files', Apply(db, op));
    }
  }

  // ---- What boot accepts ----

  /** rfid_manager_load_from_file on a disk at rest. */
  predicate Loads(files: Files) {
    Call(Load, files, []).0 == Code(Ok)
  }

  lemma LoadsIff(files: Files)
    requires WholeHeader(files)
    ensures Loads(files) <==>
            HeaderOn(files).count <= HeaderOn(files).max && (HeaderOn(files).count > 0 ==> CARDS_PATH in files)
  {
    hide Step, Run, DecodeHeader;
    var h := HeaderOn(files);
    assert files[DB_PATH][..HEADER_SIZE] == files[DB_PATH];
    RunStatDb(Load, files, []);
    RunReadHeader(Load, files, []);
    RunStatCards(Load, h, files, []);
    RunFinished(Code(InvalidState), files, []);
    RunFinished(Code(Ok), files, []);
  }

  lemma RepresentsLoads(files: Files, db: Db)
    requires Represents(files, db)
    ensures Loads(files)
  {
    hide Loads;
    RepresentsValidates(files, db);
    LoadsIff(files);
  }

  /** Only an add can count cards that no file holds. */
  lemma TornCards(op: Op, db: Db, pc: Pc, files: Files)
    requires Fits(db) && Outline(op, db, pc, files) && BetweenWrites(op, pc)
    ensures Fits(Apply(db, op))
    ensures |Apply(db, op).cards| > 0 && CARDS_PATH !in files ==> op.Add? && db.cards == []
    ensures op.Add? ==> |Apply(db, op).cards| > 0
  {
  }

  lemma OutlineBoots(op: Op, db: Db, pc: Pc, files: Files)
    requires Fits(db) && Outline(op, db, pc, files)
    ensures Loads(files) <==> !(op.Add? && db.cards == [] && BetweenWrites(op, pc) && CARDS_PATH !in files)
  {
    hide Loads, Outline, Apply, EncodeHeader, DecodeHeader, EncodeCards;
    WholeOrTorn(op, db, pc, files);
    if BetweenWrites(op, pc) {
      TornValidates(op, db, pc, files);
      TornCards(op, db, pc, files);
      LoadsIff(files);
    } else if Represents(files, db) {
      RepresentsLoads(files, db);
    } else {
      RepresentsLoads(files, Apply(db, op));
    }
  }

  /**
   Boot does not run the validity check. Of all disks a stopped call can leave it
   refuses only that of an add to an empty list which has no cards file yet.
   */
  lemma TornBoots(op: Op, db: Db, files: Files, script: seq<Outcome>, k: nat)
    requires Represents(files, db) && Refused(op).None? && Quiet(script)
    ensures var (pc', files') := After(Begin(op), files, script, k);
            Loads(files') <==> !(op.Add? && db.cards == [] && BetweenWrites(op, pc') && CARDS_PATH !in files')
  {
    hide After, Loads, EncodeHeader, EncodeCards;
    var (pc', files') := After(Begin(op), files, script, k);
    BeginOutline(op, db, files);
    AfterKeepsOutline(op, db, Begin(op), files, script, k);
    OutlineBoots(op, db, pc', files');
  }

  // ---- Disks that can be read although more bytes may follow the records ----

  /** The cards file starts with these records; more bytes may follow them. */
  ghost predicate CardsThere(files: Files, cards: seq<Card>) {
    cards != [] ==> CARDS_PATH in files && EncodeCards(cards) <= files[CARDS_PATH]
  }

  ghost predicate Readable(files: Files, db: Db) {
    Fits(db) && HeaderHeld(files, HeaderOf(db)) && CardsThere(files, db.cards)
  }

  lemma HeaderReadStep(op: Op, db: Db, files: Files, o: Outcome)
    requires Readable(files, db) && o.Success?
    ensures Step(ReadHeader(op), files, o) == (AfterHeader(op, HeaderOf(db)), files)
  {
    HeaderRoundTrip(HeaderOf(db));
    assert files[DB_PATH][..HEADER_SIZE] == files[DB_PATH];
  }

  lemma AllocateStep(op: Op, h: Header, files: Files, o: Outcome)
    requires o.Success?
    ensures Step(Allocate(op, h), files, o) == (ReadCards(op, h), files)
  {
  }

  lemma CardsReadStep(op: Op, h: Header, cards: seq<Card>, files: Files, o: Outcome)
    requires CardsThere(files, cards) && o.Success? && |cards| == h.count > 0
    ensures Step(ReadCards(op, h), files, o) == (AfterCards(op, h, cards), files)
  {
    CardsRoundTrip(cards);
    assert files[CARDS_PATH][..CARD_SIZE * |cards|] == EncodeCards(cards);
  }

  lemma HeaderWrittenStep(op: Op, h: Header, cards: seq<Card>, files: Files, o: Outcome)
    requires o.Success?
    ensures Step(WriteHeader(op, h, cards), files, o)
            == (AfterHeaderWrite(op, h, cards), files[DB_PATH := EncodeHeader(h)])
  {
    assert [] + EncodeHeader(h)[..HEADER_SIZE] == EncodeHeader(h);
  }

  function CardsFile(files: Files): bytes {
    if CARDS_PATH in files then files[CARDS_PATH] else []
  }

  lemma AppendedStep(h: Header, card: Card, files: Files, o: Outcome)
    requires o.Success?
    ensures Step(AppendCard(h, card), files, o)
            == (Finished(Code(Ok)), files[CARDS_PATH := CardsFile(files) + EncodeCard(card)])
  {
    assert EncodeCard(card)[..CARD_SIZE] == EncodeCard(card);
  }

  predicate ReadsOnly(op: Op) {
    op.Check? || op.Count? || op.List? || op.Dump?
  }

  /** Of the header they use nothing but the count, and of the cards file nothing behind the counted records. */
  lemma CountAnswers(op: Op, db: Db, h: Header, files: Files, script: seq<Outcome>)
    requires ReadsOnly(op) && Quiet(script) && h.count == |db.cards| && CardsThere(files, db.cards)
    ensures var (reply, files', _) := Run(AfterHeader(op, h), files, script);
            reply == Answer(db, op) && files' == files
  {
    QuietTail(script);
    if AfterHeader(op, h).Allocate? {
      QuietTail(Tail(script));
      RunUnfolds(Allocate(op, h), files, script);
      CardsReadStep(op, h, db.cards, files, Head(Tail(script)));
      RunUnfolds(ReadCards(op, h), files, Tail(script));
    } else if AfterHeader(op, h).ReadCards? {
      CardsReadStep(op, h, db.cards, files, Head(script));
      RunUnfolds(ReadCards(op, h), files, script);
    }
  }

  /** Check, count, list and dump do not see what follows the counted records. */
  lemma ReadableAnswers(op: Op, db: Db, files: Files, script: seq<Outcome>)
    requires Readable(files, db) && ReadsOnly(op) && Quiet(script)
    ensures var (reply, files', _) := Call(op, files, script); reply == Answer(db, op) && files' == files
  {
    QuietTail(script);
    HeaderReadStep(op, db, files, Head(script));
    RunUnfolds(ReadHeader(op), files, script);
    CountAnswers(op, db, HeaderOf(db), files, Tail(script));
  }

  // ---- Databases that pass the check without standing for a list ----

  /** The check lets one kind of inconsistent disk through: no cards counted, a cards file left over. */
  lemma ValidatesMeans(files: Files)
    requires WholeHeader(files) && Validates(files)
    ensures var h := HeaderOn(files);
            || (h.count == 0 && CARDS_PATH in files && files[CARDS_PATH] != [])
            || exists db :: Represents(files, db)
  {
    ValidatesIff(files);
    var h := HeaderOn(files);
    HeaderBytesRoundTrip(files[DB_PATH]);
    if h.count > 0 {
      var cards := DecodeCards(files[CARDS_PATH], h.count);
      CardsBytesRoundTrip(files[CARDS_PATH], h.count);
      assert Represents(files, Db(h.max, h.checksum, cards));
    } else if CARDS_PATH !in files || files[CARDS_PATH] == [] {
      assert Represents(files, Db(h.max, h.checksum, []));
    }
  }

  /** There an interrupted add goes unnoticed exactly when the left-over file is one record long. */
  lemma TornAddOnLeftOvers(files: Files, op: Op)
    requires WholeHeader(files) && HeaderOn(files).count == 0 < HeaderOn(files).max && op.Add?
    ensures var (pc', files') := After(Begin(op), files, [], 2);
            && pc'.AppendCard?
            && (Validates(files') <==> CARDS_PATH in files && |files[CARDS_PATH]| == CARD_SIZE)
  {
    PathsDiffer();
    var h := HeaderOn(files);
    assert files[DB_PATH][..HEADER_SIZE] == files[DB_PATH];
    assert Step(Begin(op), files, Success([])) == (AddIfRoom(op, h), files);
    assert After(Begin(op), files, [], 2) == After(AddIfRoom(op, h), files, [], 1);
    var (pc', files') := Step(AddIfRoom(op, h), files, Success([]));
    assert After(AddIfRoom(op, h), files, [], 1) == After(pc', files', [], 0);
    HeaderRoundTrip(h.(count := 1));
    ValidatesIff(files');
  }

  lemma HeaderAfterAdd(op: Op, db: Db)
    requires Fits(db) && op.Add? && Answer(db, op) == Code(Ok)
    ensures HeaderOf(Apply(db, op)) == HeaderOf(db).(count := |db.cards| + 1)
  {
  }

  lemma AddTail(op: Op, db: Db, files: Files, script: seq<Outcome>)
    requires Fits(db) && op.Add? && Answer(db, op) == Code(Ok) && Quiet(script)
    ensures var (reply, files', _) := Run(WriteHeader(op, HeaderOf(Apply(db, op)), []), files, script);
            && reply == Code(Ok)
            && files' == files[DB_PATH := EncodeHeader(HeaderOf(Apply(db, op)))]
                              [CARDS_PATH := CardsFile(files) + EncodeCard(NewCard(op))]
  {
    PathsDiffer();
    var h' := HeaderOf(Apply(db, op));
    var files1 := files[DB_PATH := EncodeHeader(h')];
    QuietTail(script);
    QuietTail(Tail(script));
    HeaderWrittenStep(op, h', [], files, Head(script));
    RunUnfolds(WriteHeader(op, h', []), files, script);
    AppendedStep(h', NewCard(op), files1, Head(Tail(script)));
    RunUnfolds(AppendCard(h', NewCard(op)), files1, Tail(script));
  }

  /** What an accepted add does to the two files, whatever follows the records. */
  lemma AddRun(op: Op, db: Db, files: Files, script: seq<Outcome>)
    requires Readable(files, db) && op.Add? && Answer(db, op) == Code(Ok) && Quiet(script)
    ensures var (reply, files', _) := Call(op, files, script);
            && reply == Code(Ok)
            && files' == files[DB_PATH := EncodeHeader(HeaderOf(Apply(db, op)))]
                              [CARDS_PATH := CardsFile(files) + EncodeCard(NewCard(op))]
  {
    hide Step, Run, Apply;
    var h := HeaderOf(db);
    var h' := h.(count := h.count + 1);
    HeaderAfterAdd(op, db);
    QuietTail(script);
    HeaderReadStep(op, db, files, Head(script));
    RunUnfolds(ReadHeader(op), files, script);
    if db.cards == [] {
      assert AfterHeader(op, h) == WriteHeader(op, h', []);
      AddTail(op, db, files, Tail(script));
    } else {
      var script2 := Tail(Tail(script));
      QuietTail(Tail(script));
      QuietTail(script2);
      assert AfterHeader(op, h) == Allocate(op, h);
      AllocateStep(op, h, files, Head(Tail(script)));
      RunUnfolds(Allocate(op, h), files, Tail(script));
      CardsReadStep(op, h, db.cards, files, Head(script2));
      RunUnfolds(ReadCards(op, h), files, script2);
      AddTail(op, db, files, Tail(script2));
    }
  }

  /** With no cards counted and one record left over, an add makes the left-over record count. */
  lemma LeftOverWins(files: Files, gone: Db, c: Card, op: Op)
    requires Readable(files, gone) && gone.cards == [] && gone.max > 0 && op.Add?
    requires CARDS_PATH in files && EncodeCards([c]) <= files[CARDS_PATH]
    ensures var (reply, files', _) := Call(op, files, []);
            reply == Code(Ok) && Readable(files', gone.(cards := [c]))
  {
    PathsDiffer();
    AddRun(op, gone, files, []);
  }

  lemma RemoveStops(files: Files, db: Db, c: Card)
    requires Represents(files, db) && db.cards == [c] && c.id != ADMIN_CARD_ID
    ensures var gone := Db(db.max, db.checksum, []);
            After(Begin(Remove(c.id)), files, [], 4) ==
            (StatCards(Remove(c.id), HeaderOf(gone)), files[DB_PATH := EncodeHeader(HeaderOf(gone))])
  {
    var rm, h := Remove(c.id), HeaderOf(db);
    var h0 := h.(count := 0);
    var files1 := files[DB_PATH := EncodeHeader(h0)];
    HeaderReadStep(rm, db, files, Success([]));
    AfterUnfolds(Begin(rm), files, [], 4, Allocate(rm, h), files);
    AfterUnfolds(Allocate(rm, h), files, [], 3, ReadCards(rm, h), files);
    CardsReadStep(rm, h, db.cards, files, Success([]));
    assert Without(db.cards, 0) == [];
    AfterUnfolds(ReadCards(rm, h), files, [], 2, WriteHeader(rm, h0, []), files);
    HeaderWrittenStep(rm, h0, [], files, Success([]));
    AfterUnfolds(WriteHeader(rm, h0, []), files, [], 1, StatCards(rm, h0), files1);
    AfterNothing(StatCards(rm, h0), files1, []);
  }

  /**
   The left-over file matters: interrupt the removal of the only card after its
   header write, and the next add brings the removed card back in place of the
   one added, with every call reporting success.
   */
  lemma RemovedCardReturns(files: Files, db: Db, c: Card, op: Op)
    requires Represents(files, db) && db.cards == [c] && c.id != ADMIN_CARD_ID && c.active != 0
    requires op.Add? && op.id != c.id
    ensures var (pc1, files1) := After(Begin(Remove(c.id)), files, [], 4);
            var (reply2, files2, _) := Call(op, files1, []);
            && BetweenWrites(Remove(c.id), pc1) && Validates(files1)
            && reply2 == Code(Ok)
            && Call(Check(c.id), files2, []).0 == Code(Ok)
            && Call(Check(op.id), files2, []).0 == Code(NotFound)
  {
    var gone := Db(db.max, db.checksum, []);
    var files1 := files[DB_PATH := EncodeHeader(HeaderOf(gone))];
    RemoveStops(files, db, c);
    HeaderRoundTrip(HeaderOf(gone));
    ValidatesIff(files1);
    LeftOverWins(files1, gone, c, op);
    var files2 := Call(op, files1, []).1;
    var db2 := Db(db.max, db.checksum, [c]);
    ReadableAnswers(Check(c.id), db2, files2, []);
    ReadableAnswers(Check(op.id), db2, files2, []);
  }
}
