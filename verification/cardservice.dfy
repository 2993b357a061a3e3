/** The request handler for the card list, from the stored cards to what the reader of the response learns. */
module CardService {
  import opened Base
  import opened Codec
  import opened Storage
  import opened Protocol
  import opened CardList
  import opened Refinement
  import opened System
  import opened Json
  import opened Listing
  import opened Printer
  import opened Manager

  const BUFFER_SIZE := 3072

  /** What the handler sends: the buffer, or one of its fixed messages. */
  datatype Response = NotValid | Sent | TooSmall | Failed(err: EspErr)

  /** The text a client finds in the buffer. */
  function Body(buffer: bytes): bytes {
    UpToNul(buffer)
  }

  lemma GoodPrints(db: Db)
    requires Good(db)
    ensures |db.cards| <= 200 && AllTerminated(db.cards)
  {
    assert forall i :: 0 <= i < |db.cards| ==> db.cards[i] in db.cards;
  }

  lemma ActiveCards(db: Db)
    requires Good(db)
    ensures forall i :: 0 <= i < |db.cards| ==> db.cards[i].active == 1
  {
    assert forall i :: 0 <= i < |db.cards| ==> db.cards[i] in db.cards;
  }

  /** What printing a good list into the server's buffer gives. */
  predicate Delivers(db: Db, err: EspErr) {
    var n := |db.cards|;
    && (err == Ok <==> (db.cards == [] || LengthBefore(n, db.cards, n - 1) + MARGIN < BUFFER_SIZE))
    && (err == Ok || err == NoMem)
    && (|db.cards| <= 32 ==> err == Ok)
  }

  /** A printed list reads as the cards found, if and only if every name can be printed as it is. */
  ghost predicate ReadsAs(cards: seq<Card>, buffer: bytes) {
    var v := Read(Body(buffer));
    v.Some? && ShowsList(v.value, |cards|, cards) <==> AllPlain(cards) && AllUtf8(cards)
  }

  lemma GoodDelivers(db: Db)
    requires Good(db)
    ensures var (buffer, err) := Output(|db.cards|, db.cards, BUFFER_SIZE);
            Delivers(db, err) && (err == Ok ==> ReadsAs(db.cards, buffer))
  {
    hide LengthBefore, StopAt, ListText, ListValue, ShowsList, Read, AllPlain, AllUtf8, Prefix, Output, Good;
    var n := |db.cards|;
    GoodPrints(db);
    OutputIsWhole(n, db.cards, BUFFER_SIZE);
    CompleteIff(n, db.cards, BUFFER_SIZE);
    if n <= 32 {
      ActiveCards(db);
      ThirtyOneFit(db.cards);
    }
    if Output(n, db.cards, BUFFER_SIZE).1 == Ok {
      PrintedMeans(n, db.cards, BUFFER_SIZE);
    }
  }

  lemma ValidityOf(db: Db, files: Files, script: seq<Outcome>)
    requires Represents(files, db) && Quiet(script)
    ensures Call(Validate, files, script).0 == Verdict(true) && Quiet(Call(Validate, files, script).2)
  {
    hide Run, Represents;
    CallRefines(Validate, db, files, script);
  }

  lemma DumpOf(db: Db, files: Files, script: seq<Outcome>)
    requires Represents(files, db) && Quiet(script)
    ensures Call(Dump, files, script).0 == Listed(Ok, db.cards)
  {
    hide Run, Represents;
    CallRefines(Dump, db, files, script);
  }

  /** What the printer can take: names with a NUL, and no more cards than a header can count. */
  predicate Printable(cards: seq<Card>) {
    |cards| <= 0xFFFF && AllTerminated(cards)
  }

  /** What the list call finds on disk, after the validity check. */
  function Found(files: Files, script: seq<Outcome>): Reply {
    Call(Dump, files, Call(Validate, files, script).2).0
  }

  /** How the handler answers, given what the two calls under it find. */
  function Answered(valid: bool, found: Reply): Response {
    if !valid then NotValid
    else if !found.Listed? then Failed(Fail)
    else if found.err == Ok then
      if |found.cards| > 0xFFFF || Output(|found.cards|, found.cards, BUFFER_SIZE).1 != Ok then TooSmall else Sent
    else if found.err == NoMem then TooSmall
    else Failed(found.err)
  }

  lemma SentReads(cards: seq<Card>)
    requires Printable(cards) && Output(|cards|, cards, BUFFER_SIZE).1 == Ok
    ensures ReadsAs(cards, Output(|cards|, cards, BUFFER_SIZE).0)
  {
    hide StopAt, ListText, ListValue, ShowsList, Read, AllPlain, AllUtf8, Output;
    PrintedMeans(|cards|, cards, BUFFER_SIZE);
  }

  lemma OutputErr(cards: seq<Card>)
    ensures Output(|cards|, cards, BUFFER_SIZE).1 in {Ok, NoMem}
  {
    hide Prefix, StopAt, ListText;
  }

  lemma DumpErr(files: Files, script: seq<Outcome>)
    ensures Call(Dump, files, script).0.Listed?
  {
    hide Step, Run, ReadBack, DecodeHeader, DecodeCards;
    RunReadHeader(Dump, files, script);
    match ReadBack(files, DB_PATH, HEADER_SIZE, Head(script))
    case None =>
    case Some(b) =>
      var h := DecodeHeader(b);
      RunAllocate(Dump, h, files, Tail(script));
      RunReadCards(Dump, h, files, Tail(Tail(script)));
      RunFinished(Listed(Ok, []), files, Tail(script));
      match ReadBack(files, CARDS_PATH, CARD_SIZE * h.count, Head(Tail(Tail(script))))
      case None =>
      case Some(raw) => RunFinished(Listed(Ok, DecodeCards(raw, h.count)), files, Tail(Tail(Tail(script))));
  }

  /**
   The handler: check the database, then print the list. What it answers is stated
   for every disk and every outcome of every access; without faults and on a good
   list, it sends the list exactly if Delivers says so.
   */
  method ListCardsHandler(manager: RfidManager, buffer: array<byte>, ghost db: Db) returns (r: Response)
    requires !manager.held && buffer.Length == BUFFER_SIZE
    requires var found := Found(manager.fs.files, manager.fs.script);
             Call(Validate, manager.fs.files, manager.fs.script).0 == Verdict(true) && found.Listed? && found.err == Ok
             ==> Printable(found.cards)
    modifies manager, manager.fs`script, buffer
    ensures !manager.held && manager.fs.files == old(manager.fs.files)
    ensures r.NotValid? <==> Call(Validate, manager.fs.files, old(manager.fs.script)).0 == Verdict(false)
    ensures var valid := Call(Validate, manager.fs.files, old(manager.fs.script)).0 == Verdict(true);
            var found := Found(manager.fs.files, old(manager.fs.script));
            && r == Answered(valid, found)
            && (r.Sent? ==> valid && found.Listed? && found.err == Ok)
            && (r.TooSmall? ==> valid && found.Listed? && (found.err == NoMem || found.err == Ok))
            && (r.Failed? ==> valid && found.Listed? && r.err == found.err && r.err != Ok && r.err != NoMem)
            && (valid && found.Listed? && found.err == Ok ==>
                  (r.Sent? <==> Output(|found.cards|, found.cards, 3072).1 == Ok))
    ensures var found := Found(manager.fs.files, old(manager.fs.script));
            r.Sent? ==> found.Listed? && ReadsAs(found.cards, buffer[..])
    ensures Good(db) && Represents(manager.fs.files, db) && Quiet(old(manager.fs.script)) ==>
              && Found(manager.fs.files, old(manager.fs.script)) == Listed(Ok, db.cards)
              && Delivers(db, if r.Sent? then Ok else NoMem) && (r.Sent? || r.TooSmall?)
  {
    hide Run, Represents, Good, Output, ReadsAs, Call, Answer, Apply, LengthBefore, AllTerminated, Quiet;
    ghost var files, script := manager.fs.files, manager.fs.script;
    ghost var found := Found(files, script);
    if Good(db) && Represents(files, db) && Quiet(script) {
      ValidityOf(db, files, script);
      DumpOf(db, files, Call(Validate, files, script).2);
      GoodDelivers(db);
    }
    var valid := manager.IsDatabaseValid();
    if !valid {
      return NotValid;
    }
    DumpErr(files, manager.fs.script);
    OutputErr(found.cards);
    var err := manager.GetCardListJson(buffer);
    if err == Ok {
      r := Sent;
      SentReads(found.cards);
    } else if err == NoMem {
      r := TooSmall;
    } else {
      r := Failed(err);
    }
  }

  /**
   In every fault-free run from a fresh database, whenever the mutex is free, the
   list can be served: what the handler asks for holds, so up to 32 cards are sent
   and read as the stored ones, if and only if every name can be printed as it is.
   */
  lemma RunsAreServed(s0: State, events: seq<Event>, s: State)
    requires Initial(s0) && Represents(s0.files, EMPTY)
    requires Exec(s0, events) == Some(s) && FaultFree(events) && s.mutex.None?
    ensures var db := Folded(EMPTY, s.history);
            && Good(db) && Represents(s.files, db)
            && var (buffer, err) := Output(|db.cards|, db.cards, BUFFER_SIZE);
               Delivers(db, err) && (err == Ok ==> ReadsAs(db.cards, buffer))
  {
    hide Output, Delivers, ReadsAs, Good, Represents, Folded;
    SafeRuns(s0, events, s);
    GoodDelivers(Folded(EMPTY, s.history));
  }
}
