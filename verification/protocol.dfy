/**
 The card-database calls as a machine that makes one storage access per step.
 A program point carries what the C code holds in local variables there.
 Everything between two program points runs with the mutex held.
 */
module Protocol {
  import opened Base
  import opened Codec
  import opened Storage

  const DB_PATH := "/spiffs/rfid_database.bin"
  const CARDS_PATH := "/spiffs/rfid_cards.bin"
  const ADMIN_CARD_ID: u32 := 0x12345678
  const MAX_CARDS: u16 := 200
  const EMPTY_HEADER := Header(0, MAX_CARDS, 0)

  /**
   The calls. `now` is what time(NULL) gives, `pad` what the padding of the
   local record contains, `room` how many cards fit the caller's buffer.
   */
  datatype Op =
    | Add(id: u32, name: CString, now: u32, pad: Pad)
    | Remove(id: u32)
    | Check(id: u32)
    | Count
    | List(room: u16)
    | Dump  // the accesses made by rfid_manager_get_card_list_json
    | Save
    | Load
    | Format
    | Validate

  datatype Reply =
    | Code(err: EspErr)
    | Counted(count: u16)
    | Listed(err: EspErr, cards: seq<Card>)
    | Verdict(valid: bool)

  datatype Pc =
    | StatDb(op: Op)
    | ReadHeader(op: Op)
    | Allocate(op: Op, h: Header)
    | ReadCards(op: Op, h: Header)
    | WriteHeader(op: Op, h: Header, cards: seq<Card>)
    | AppendCard(h: Header, card: Card)
    | UndoHeader(h: Header)
    | WriteCards(cards: seq<Card>)
    | StatCards(op: Op, h: Header)
    | UnlinkCards(op: Op)
    | SizeCards(h: Header)
    | Finished(reply: Reply)

  /** Calls refused before the mutex is taken. */
  function Refused(op: Op): Option<Reply> {
    match op
    case Remove(id) => if id == ADMIN_CARD_ID then Some(Code(NotSupported)) else None
    case _ => None
  }

  function Failure(op: Op, err: EspErr): Reply {
    match op
    case Count => Counted(0)
    case List(_) => Listed(err, [])
    case Dump => Listed(err, [])
    case Validate => Verdict(false)
    case _ => Code(err)
  }

  /** The position of the first card with this id, or the length of the list. */
  function Find(cards: seq<Card>, id: u32): (i: nat)
    ensures i <= |cards|
    ensures forall j :: 0 <= j < i ==> cards[j].id != id
    ensures i < |cards| ==> cards[i].id == id
  {
    if cards == [] || cards[0].id == id then 0 else 1 + Find(cards[1..], id)
  }

  function Without<T>(s: seq<T>, i: nat): seq<T>
    requires i < |s|
  {
    s[..i] + s[i + 1..]
  }

  function NewCard(op: Op): Card
    requires op.Add?
  {
    Card(op.id, 1, NameField(op.name), op.pad, op.now)
  }

  /** rfid_manager_save_to_file stores 0 + 1 + ... + (count - 1), which fits 32 bits. */
  function Checksum(count: u16): (r: u32)
    ensures r <= 0xFFFF * count
  {
    if count == 0 then 0 else Checksum(count - 1) + (count - 1)
  }

  /** Steps left at most. */
  function Rank(pc: Pc): nat {
    match pc
    case StatDb(_) => 9
    case ReadHeader(_) => 8
    case Allocate(_, _) => 7
    case ReadCards(_, _) => 6
    case WriteHeader(_, _, _) => 5
    case AppendCard(_, _) => 4
    case UndoHeader(_) => 3
    case WriteCards(_) => 3
    case StatCards(_, _) => 2
    case UnlinkCards(_) => 1
    case SizeCards(_) => 1
    case Finished(_) => 0
  }

  function Begin(op: Op): Pc {
    match op
    case Format => WriteHeader(op, EMPTY_HEADER, [])
    case Load => StatDb(op)
    case Validate => StatDb(op)
    case _ => ReadHeader(op)
  }

  function AddIfRoom(op: Op, h: Header): (pc: Pc)
    ensures Rank(pc) < 6
  {
    if h.count < h.max then WriteHeader(op, h.(count := h.count + 1), [])
    else Finished(Code(NoMem))
  }

  function AfterHeader(op: Op, h: Header): (pc: Pc)
    ensures Rank(pc) < 8
  {
    match op
    case Add(_, _, _, _) => if h.count > 0 then Allocate(op, h) else AddIfRoom(op, h)
    case Remove(_) => if h.count == 0 then Finished(Code(NotFound)) else Allocate(op, h)
    case Check(_) => if h.count == 0 then Finished(Code(NotFound)) else Allocate(op, h)
    case Count => Finished(Counted(h.count))
    case List(room) =>
      if room < h.count then Finished(Listed(NoMem, []))
      else if h.count == 0 then Finished(Listed(Ok, []))
      else ReadCards(op, h)
    case Dump => if h.count == 0 then Finished(Listed(Ok, [])) else Allocate(op, h)
    case Save => WriteHeader(op, h.(checksum := Checksum(h.count)), [])
    case Load =>
      if h.count > h.max then Finished(Code(InvalidState))
      else if h.count > 0 then StatCards(op, h)
      else Finished(Code(Ok))
    case Validate =>
      if h.count > h.max then Finished(Verdict(false))
      else if h.count > 0 then StatCards(op, h)
      else SizeCards(h)
    case Format => Finished(Code(Ok))
  }

  function AfterCards(op: Op, h: Header, cards: seq<Card>): (pc: Pc)
    requires |cards| == h.count
    ensures Rank(pc) < 6
  {
    match op
    case Add(id, _, _, _) =>
      if Find(cards, id) < |cards| then Finished(Code(InvalidState)) else AddIfRoom(op, h)
    case Remove(id) =>
      var i := Find(cards, id);
      if i == |cards| then Finished(Code(NotFound))
      else WriteHeader(op, h.(count := h.count - 1), Without(cards, i))
    case Check(id) =>
      var i := Find(cards, id);
      if i == |cards| then Finished(Code(NotFound))
      else if cards[i].active != 0 then Finished(Code(Ok))
      else Finished(Code(InvalidState))
    case List(_) => Finished(Listed(Ok, cards))
    case Dump => Finished(Listed(Ok, cards))
    case _ => Finished(Failure(op, Fail))
  }

  function AfterHeaderWrite(op: Op, h: Header, cards: seq<Card>): (pc: Pc)
    ensures Rank(pc) < 5
  {
    match op
    case Add(_, _, _, _) => AppendCard(h, NewCard(op))
    case Remove(_) => if cards != [] then WriteCards(cards) else StatCards(op, h)
    case Format => StatCards(op, h)
    case _ => Finished(Code(Ok))
  }

  function AfterStat(op: Op, h: Header, present: bool): (pc: Pc)
    ensures Rank(pc) < 2
  {
    match op
    case Load => Finished(Code(if present then Ok else InvalidState))
    case Validate => if present then SizeCards(h) else Finished(Verdict(false))
    case _ => if present then UnlinkCards(op) else Finished(Code(Ok))
  }

  /** One storage access (or allocation) that comes out as `o`. */
  function Step(pc: Pc, files: Files, o: Outcome): (r: (Pc, Files))
    ensures !pc.Finished? ==> Rank(r.0) < Rank(pc)
  {
    match pc
    case StatDb(op) =>
      (if Exists(files, DB_PATH, o) then ReadHeader(op) else Finished(Failure(op, NotFound)), files)
    case ReadHeader(op) =>
      (match ReadBack(files, DB_PATH, HEADER_SIZE, o)
       case None => Finished(Failure(op, Fail))
       case Some(b) => AfterHeader(op, DecodeHeader(b)),
       files)
    case Allocate(op, h) =>
      (if o.Fails? then Finished(Failure(op, NoMem)) else ReadCards(op, h), files)
    case ReadCards(op, h) =>
      (match ReadBack(files, CARDS_PATH, CARD_SIZE * h.count, o)
       case None => Finished(Failure(op, Fail))
       case Some(b) => AfterCards(op, h, DecodeCards(b, h.count)),
       files)
    case WriteHeader(op, h, cards) =>
      var (ok, files') := Written(files, DB_PATH, EncodeHeader(h), false, o);
      (if ok then AfterHeaderWrite(op, h, cards) else Finished(Code(Fail)), files')
    case AppendCard(h, card) =>
      var (ok, files') := Written(files, CARDS_PATH, EncodeCard(card), true, o);
      // card_count is unsigned, so decrementing it is adding 0xFFFF modulo 2^16
      (if ok then Finished(Code(Ok)) else UndoHeader(h.(count := (h.count + 0xFFFF) % 0x1_0000)), files')
    case UndoHeader(h) =>
      (Finished(Code(Fail)), Written(files, DB_PATH, EncodeHeader(h), false, o).1)
    case WriteCards(cards) =>
      var (ok, files') := Written(files, CARDS_PATH, EncodeCards(cards), false, o);
      (Finished(Code(if ok then Ok else Fail)), files')
    case StatCards(op, h) => (AfterStat(op, h, Exists(files, CARDS_PATH, o)), files)
    case UnlinkCards(op) =>
      var (ok, files') := Deleted(files, CARDS_PATH, o);
      (Finished(Code(if ok || op.Format? then Ok else Fail)), files')
    case SizeCards(h) =>
      (Finished(Verdict(h.count == 0 || FileSize(files, CARDS_PATH, o) == CARD_SIZE * h.count)), files)
    case Finished(_) => (pc, files)
  }

  /** The call runs alone to its end: its reply, the files, and the outcomes not used up. */
  function Run(pc: Pc, files: Files, script: seq<Outcome>): (r: (Reply, Files, seq<Outcome>))
    decreases Rank(pc)
  {
    if pc.Finished? then (pc.reply, files, script)
    else
      var (pc', files') := Step(pc, files, Head(script));
      Run(pc', files', Tail(script))
  }

  lemma RunUnfolds(pc: Pc, files: Files, script: seq<Outcome>)
    requires !pc.Finished?
    ensures var (pc', files') := Step(pc, files, Head(script));
            Run(pc, files, script) == Run(pc', files', Tail(script))
  {
  }

  /** A whole call: refused at once, or run under the mutex. */
  function Call(op: Op, files: Files, script: seq<Outcome>): (Reply, Files, seq<Outcome>) {
    match Refused(op)
    case Some(reply) => (reply, files, script)
    case None => Run(Begin(op), files, script)
  }

  // ---- Run, one access at a time ----

  lemma RunStatDb(op: Op, files: Files, script: seq<Outcome>)
    ensures Run(StatDb(op), files, script) ==
            if Exists(files, DB_PATH, Head(script)) then Run(ReadHeader(op), files, Tail(script))
            else (Failure(op, NotFound), files, Tail(script))
  {
  }

  lemma RunReadHeader(op: Op, files: Files, script: seq<Outcome>)
    ensures Run(ReadHeader(op), files, script) ==
            match ReadBack(files, DB_PATH, HEADER_SIZE, Head(script))
            case None => (Failure(op, Fail), files, Tail(script))
            case Some(b) => Run(AfterHeader(op, DecodeHeader(b)), files, Tail(script))
  {
  }

  lemma RunAllocate(op: Op, h: Header, files: Files, script: seq<Outcome>)
    ensures Run(Allocate(op, h), files, script) ==
            if Head(script).Fails? then (Failure(op, NoMem), files, Tail(script))
            else Run(ReadCards(op, h), files, Tail(script))
  {
  }

  lemma RunReadCards(op: Op, h: Header, files: Files, script: seq<Outcome>)
    ensures Run(ReadCards(op, h), files, script) ==
            match ReadBack(files, CARDS_PATH, CARD_SIZE * h.count, Head(script))
            case None => (Failure(op, Fail), files, Tail(script))
            case Some(b) => Run(AfterCards(op, h, DecodeCards(b, h.count)), files, Tail(script))
  {
  }

  lemma RunWriteHeader(op: Op, h: Header, cards: seq<Card>, files: Files, script: seq<Outcome>)
    ensures var (ok, files') := Written(files, DB_PATH, EncodeHeader(h), false, Head(script));
            Run(WriteHeader(op, h, cards), files, script) ==
            if ok then Run(AfterHeaderWrite(op, h, cards), files', Tail(script))
            else (Code(Fail), files', Tail(script))
  {
  }

  lemma RunFinished(reply: Reply, files: Files, script: seq<Outcome>)
    ensures Run(Finished(reply), files, script) == (reply, files, script)
  {
  }

  lemma RunAppendCard(h: Header, card: Card, files: Files, script: seq<Outcome>)
    requires h.count > 0
    ensures var (ok, files') := Written(files, CARDS_PATH, EncodeCard(card), true, Head(script));
            var undone := h.(count := h.count - 1);
            Run(AppendCard(h, card), files, script) ==
            if ok then (Code(Ok), files', Tail(script))
            else (Code(Fail),
                  Written(files', DB_PATH, EncodeHeader(undone), false, Head(Tail(script))).1,
                  Tail(Tail(script)))
  {
    hide Run, Written, EncodeCard, EncodeHeader;
    assert (h.count + 0xFFFF) % 0x1_0000 == h.count - 1;
    var (pc', files') := Step(AppendCard(h, card), files, Head(script));
    RunUnfolds(AppendCard(h, card), files, script);
    RunFinished(Code(Ok), files', Tail(script));
    if pc'.UndoHeader? {
      RunUnfolds(pc', files', Tail(script));
      RunFinished(Code(Fail), Written(files', DB_PATH, EncodeHeader(pc'.h), false, Head(Tail(script))).1,
                  Tail(Tail(script)));
    }
  }

  lemma RunWriteCards(cards: seq<Card>, files: Files, script: seq<Outcome>)
    ensures var (ok, files') := Written(files, CARDS_PATH, EncodeCards(cards), false, Head(script));
            Run(WriteCards(cards), files, script) == (Code(if ok then Ok else Fail), files', Tail(script))
  {
  }

  lemma RunStatCards(op: Op, h: Header, files: Files, script: seq<Outcome>)
    ensures Run(StatCards(op, h), files, script)
            == Run(AfterStat(op, h, Exists(files, CARDS_PATH, Head(script))), files, Tail(script))
  {
  }

  lemma RunUnlinkCards(op: Op, files: Files, script: seq<Outcome>)
    ensures var (ok, files') := Deleted(files, CARDS_PATH, Head(script));
            Run(UnlinkCards(op), files, script)
            == (Code(if ok || op.Format? then Ok else Fail), files', Tail(script))
  {
  }

  lemma RunSizeCards(h: Header, files: Files, script: seq<Outcome>)
    ensures Run(SizeCards(h), files, script)
            == (Verdict(h.count == 0 || FileSize(files, CARDS_PATH, Head(script)) == CARD_SIZE * h.count),
                files, Tail(script))
  {
  }

  lemma PathsDiffer()
    ensures DB_PATH != CARDS_PATH
  {
    assert |DB_PATH| != |CARDS_PATH|;
  }
}
