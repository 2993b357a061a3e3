/**
 The two byte files refine the access list. One proof outline says what the
 disk holds at every program point of every call; refinement of a whole call and
 the detection of torn updates both follow from it.
 */
module Refinement {
  import opened Base
  import opened Codec
  import opened Storage
  import opened Protocol
  import opened CardList

  function HeaderOf(db: Db): Header
    requires Fits(db)
  {
    Header(|db.cards|, db.max, db.checksum)
  }

  ghost predicate HeaderHeld(files: Files, h: Header) {
    DB_PATH in files && files[DB_PATH] == EncodeHeader(h)
  }

  /** The cards file holds these records and nothing else; for no cards it may be absent. */
  ghost predicate CardsHeld(files: Files, cards: seq<Card>) {
    if cards == [] then CARDS_PATH !in files || files[CARDS_PATH] == []
    else CARDS_PATH in files && files[CARDS_PATH] == EncodeCards(cards)
  }

  ghost predicate Represents(files: Files, db: Db) {
    Fits(db) && HeaderHeld(files, HeaderOf(db)) && CardsHeld(files, db.cards)
  }

  /** The disk determines the list it stands for. */
  lemma RepresentsOne(files: Files, db: Db)
    requires Represents(files, db)
    ensures DecodeHeader(files[DB_PATH]) == HeaderOf(db)
    ensures db.cards != [] ==> |files[CARDS_PATH]| == CARD_SIZE * |db.cards|
                               && DecodeCards(files[CARDS_PATH], |db.cards|) == db.cards
    ensures forall db' :: Represents(files, db') ==> db' == db
  {
    HeaderRoundTrip(HeaderOf(db));
    CardsRoundTrip(db.cards);
    forall db' | Represents(files, db')
      ensures db' == db
    {
      HeaderRoundTrip(HeaderOf(db'));
      CardsRoundTrip(db'.cards);
    }
  }

  predicate NeedsCards(op: Op) {
    op.Add? || op.Remove? || op.Check? || op.List? || op.Dump?
  }

  /** Header already the new one, cards file still the old one. */
  ghost predicate Torn(op: Op, db: Db, files: Files)
    requires Fits(db)
  {
    && HeaderHeld(files, HeaderOf(Apply(db, op)))
    && CardsHeld(files, db.cards)
    && Answer(db, op) == Code(Ok)
  }

  /** What is true at program point `pc` of `op`, started on a disk that stands for `db`. */
  ghost predicate Outline(op: Op, db: Db, pc: Pc, files: Files)
    requires Fits(db)
  {
    match pc
    case StatDb(o) => o == op && (op.Load? || op.Validate?) && Represents(files, db)
    case ReadHeader(o) => o == op && !op.Format? && Represents(files, db)
    case Allocate(o, h) =>
      o == op && NeedsCards(op) && !op.List? && h == HeaderOf(db) && db.cards != [] && Represents(files, db)
    case ReadCards(o, h) =>
      o == op && NeedsCards(op) && h == HeaderOf(db) && db.cards != [] && Represents(files, db)
      && (op.List? ==> |db.cards| <= op.room)
    case WriteHeader(o, h, cards) =>
      && o == op && (op.Add? || op.Remove? || op.Save? || op.Format?)
      && Represents(files, db) && h == HeaderOf(Apply(db, op))
      && (op.Add? ==> Apply(db, op).cards == db.cards + [NewCard(op)])
      && (op.Remove? ==> cards == Apply(db, op).cards)
      && Answer(db, op) == Code(Ok)
    case AppendCard(h, card) =>
      op.Add? && card == NewCard(op) && Apply(db, op).cards == db.cards + [card] && Torn(op, db, files)
    case UndoHeader(_) => false
    case WriteCards(cards) => op.Remove? && cards != [] && cards == Apply(db, op).cards && Torn(op, db, files)
    case StatCards(o, h) =>
      && o == op
      && (if op.Load? || op.Validate? then db.cards != [] && h == HeaderOf(db) && Represents(files, db)
          else (op.Remove? || op.Format?) && Apply(db, op).cards == [] && Torn(op, db, files))
    case UnlinkCards(o) =>
      o == op && (op.Remove? || op.Format?) && Apply(db, op).cards == [] && CARDS_PATH in files
      && Torn(op, db, files)
    case SizeCards(h) => op.Validate? && h == HeaderOf(db) && Represents(files, db)
    case Finished(reply) => Represents(files, Apply(db, op)) && reply == Answer(db, op)
  }

  lemma BeginOutline(op: Op, db: Db, files: Files)
    requires Represents(files, db) && Refused(op).None?
    ensures Outline(op, db, Begin(op), files)
  {
  }

  // Each lemma below is one edge of the machine, for accesses that succeed.

  lemma AddIfRoomOutline(op: Op, db: Db, files: Files)
    requires Represents(files, db) && op.Add? && !Has(db, op.id)
    ensures Outline(op, db, AddIfRoom(op, HeaderOf(db)), files)
  {
  }

  lemma AfterHeaderOutline(op: Op, db: Db, files: Files)
    requires Represents(files, db) && Refused(op).None? && !op.Format?
    ensures Outline(op, db, AfterHeader(op, HeaderOf(db)), files)
  {
    if op.Add? && db.cards == [] {
      AddIfRoomOutline(op, db, files);
    }
  }

  lemma AfterCardsOutline(op: Op, db: Db, files: Files)
    requires Represents(files, db) && Refused(op).None? && NeedsCards(op)
    requires op.List? ==> |db.cards| <= op.room
    ensures Outline(op, db, AfterCards(op, HeaderOf(db), db.cards), files)
  {
    if op.Add? && !Has(db, op.id) {
      AddIfRoomOutline(op, db, files);
    }
  }

  lemma ReadHeaderStep(op: Op, db: Db, pc: Pc, files: Files, o: Outcome)
    requires Fits(db) && Outline(op, db, pc, files) && Refused(op).None? && o.Success?
    requires pc.ReadHeader?
    ensures var (pc', files') := Step(pc, files, o); Outline(op, db, pc', files')
  {
    RepresentsOne(files, db);
    AfterHeaderOutline(op, db, files);
    hide EncodeHeader, DecodeHeader, EncodeCards, AfterHeader;
    assert files[DB_PATH][..HEADER_SIZE] == files[DB_PATH];
  }

  lemma ReadCardsStep(op: Op, db: Db, pc: Pc, files: Files, o: Outcome)
    requires Fits(db) && Outline(op, db, pc, files) && Refused(op).None? && o.Success?
    requires pc.ReadCards?
    ensures var (pc', files') := Step(pc, files, o); Outline(op, db, pc', files')
  {
    RepresentsOne(files, db);
    AfterCardsOutline(op, db, files);
    hide EncodeHeader, DecodeHeader, EncodeCards, DecodeCards, AfterCards;
    assert files[CARDS_PATH][..CARD_SIZE * |db.cards|] == files[CARDS_PATH];
  }

  lemma OtherStep(op: Op, db: Db, pc: Pc, files: Files, o: Outcome)
    requires Fits(db) && Outline(op, db, pc, files) && Refused(op).None? && o.Success?
    requires pc.StatDb? || pc.Allocate? || pc.SizeCards?
    ensures var (pc', files') := Step(pc, files, o); Outline(op, db, pc', files')
  {
    RepresentsOne(files, db);
    hide EncodeHeader, DecodeHeader, EncodeCards, DecodeCards;
  }

  lemma HeaderWriteStep(op: Op, db: Db, pc: Pc, files: Files, o: Outcome)
    requires Fits(db) && Outline(op, db, pc, files) && Refused(op).None? && o.Success?
    requires pc.WriteHeader?
    ensures var (pc', files') := Step(pc, files, o); Outline(op, db, pc', files')
  {
    PathsDiffer();
    var (pc', files') := Step(pc, files, o);
    assert HeaderHeld(files', pc.h);
    assert CardsHeld(files', db.cards);
  }

  lemma AppendCardStep(op: Op, db: Db, pc: Pc, files: Files, o: Outcome)
    requires Fits(db) && Outline(op, db, pc, files) && Refused(op).None? && o.Success?
    requires pc.AppendCard?
    ensures var (pc', files') := Step(pc, files, o); Outline(op, db, pc', files')
  {
    PathsDiffer();
    hide EncodeHeader, EncodeCard, EncodeCards;
    EncodeAppend(db.cards, pc.card);
    var files' := Step(pc, files, o).1;
    assert EncodeCard(pc.card)[..CARD_SIZE] == EncodeCard(pc.card);
    assert db.cards == [] ==> EncodeCards(db.cards) == [];
    assert CardsHeld(files', db.cards + [pc.card]);
    assert HeaderHeld(files', HeaderOf(Apply(db, op)));
  }

  lemma WriteCardsStep(op: Op, db: Db, pc: Pc, files: Files, o: Outcome)
    requires Fits(db) && Outline(op, db, pc, files) && Refused(op).None? && o.Success?
    requires pc.WriteCards?
    ensures var (pc', files') := Step(pc, files, o); Outline(op, db, pc', files')
  {
    PathsDiffer();
    hide EncodeHeader, EncodeCard, EncodeCards, Apply, Answer;
    var files' := Step(pc, files, o).1;
    assert EncodeCards(pc.cards)[..|EncodeCards(pc.cards)|] == EncodeCards(pc.cards);
    assert CardsHeld(files', pc.cards);
  }

  lemma CardsGoneStep(op: Op, db: Db, pc: Pc, files: Files, o: Outcome)
    requires Fits(db) && Outline(op, db, pc, files) && Refused(op).None? && o.Success?
    requires pc.StatCards? || pc.UnlinkCards?
    ensures var (pc', files') := Step(pc, files, o); Outline(op, db, pc', files')
  {
    PathsDiffer();
    hide EncodeHeader, EncodeCard, EncodeCards;
  }

  /** What every step of every call keeps. */
  lemma StepKeepsOutline(op: Op, db: Db, pc: Pc, files: Files, o: Outcome)
    requires Fits(db) && Outline(op, db, pc, files) && Refused(op).None? && o.Success?
    ensures var (pc', files') := Step(pc, files, o); Outline(op, db, pc', files')
  {
    match pc
    case StatDb(_) => OtherStep(op, db, pc, files, o);
    case ReadHeader(_) => ReadHeaderStep(op, db, pc, files, o);
    case Allocate(_, _) => OtherStep(op, db, pc, files, o);
    case ReadCards(_, _) => ReadCardsStep(op, db, pc, files, o);
    case SizeCards(_) => OtherStep(op, db, pc, files, o);
    case WriteHeader(_, _, _) => HeaderWriteStep(op, db, pc, files, o);
    case Finished(_) =>
    case AppendCard(_, _) => AppendCardStep(op, db, pc, files, o);
    case WriteCards(_) => WriteCardsStep(op, db, pc, files, o);
    case _ => CardsGoneStep(op, db, pc, files, o);
  }

  /** The reply is the list's answer and the files stand for the list as changed. */
  ghost predicate Ends(op: Op, db: Db, r: (Reply, Files, seq<Outcome>)) {
    Represents(r.1, Apply(db, op)) && r.0 == Answer(db, op) && Quiet(r.2)
  }

  lemma {:induction false} RunKeepsOutline(op: Op, db: Db, pc: Pc, files: Files, script: seq<Outcome>)
    requires Fits(db) && Outline(op, db, pc, files) && Refused(op).None? && Quiet(script)
    ensures Ends(op, db, Run(pc, files, script))
    decreases Rank(pc)
  {
    if pc.Finished? {
    } else {
      hide *;
      QuietTail(script);
      StepKeepsOutline(op, db, pc, files, Head(script));
      var (pc', files') := Step(pc, files, Head(script));
      RunKeepsOutline(op, db, pc', files', Tail(script));
      RunUnfolds(pc, files, script);
    }
  }

  /** A call on fault-free storage does to the files what Apply does to the list. */
  lemma CallRefines(op: Op, db: Db, files: Files, script: seq<Outcome>)
    requires Represents(files, db) && Quiet(script)
    ensures Ends(op, db, Call(op, files, script))
  {
    if Refused(op).None? {
      BeginOutline(op, db, files);
      RunKeepsOutline(op, db, Begin(op), files, script);
    }
  }

  /** A format needs nothing of the disk it starts from. */
  lemma FormatFromAnything(files: Files, script: seq<Outcome>)
    requires Quiet(script)
    ensures var (reply, files', rest) := Call(Format, files, script);
            Represents(files', EMPTY) && reply == Code(Ok) && Quiet(rest)
  {
    PathsDiffer();
    QuietTail(script);
    QuietTail(Tail(script));
    var (pc1, files1) := Step(Begin(Format), files, Head(script));
    assert HeaderHeld(files1, EMPTY_HEADER) && EMPTY_HEADER == HeaderOf(EMPTY);
    var (pc2, files2) := Step(pc1, files1, Head(Tail(script)));
    if pc2.UnlinkCards? {
      QuietTail(Tail(Tail(script)));
      var (pc3, files3) := Step(pc2, files2, Head(Tail(Tail(script))));
      assert CARDS_PATH !in files3 && DB_PATH in files3;
      assert Run(pc2, files2, Tail(Tail(script))) == Run(pc3, files3, Tail(Tail(Tail(script))));
    }
    assert Run(pc1, files1, Tail(script)) == Run(pc2, files2, Tail(Tail(script)));
  }
}
