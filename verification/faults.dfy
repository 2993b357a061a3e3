/**
 Writes that fail, or lose bytes without saying so: what the call reports, what
 the disk holds afterwards, and what later calls make of it.
 */
module Faults {
  import opened Base
  import opened Codec
  import opened Storage
  import opened Protocol
  import opened CardList
  import opened Refinement
  import opened Crash

  // ---- Headers that are cut off ----

  /** Check, count, list and dump answer what the list answers, whatever their reads pick up. */
  ghost predicate Unseen(files: Files, db: Db) {
    forall q, script :: ReadsOnly(q) && Quiet(script) ==> Call(q, files, script).0 == Answer(db, q)
  }

  lemma ReadableUnseen(files: Files, db: Db)
    requires Readable(files, db)
    ensures Unseen(files, db)
  {
    forall q, script | ReadsOnly(q) && Quiet(script)
      ensures Call(q, files, script).0 == Answer(db, q)
    {
      ReadableAnswers(q, db, files, script);
    }
  }

  /** The header file holds only the first `m` bytes of this header. */
  predicate HeaderCut(files: Files, h: Header, m: nat) {
    m < HEADER_SIZE && DB_PATH in files && files[DB_PATH] == EncodeHeader(h)[..m]
  }

  /** What a call reads there: the rest is what its local variable held. */
  function Patched(h: Header, m: nat, junk: bytes): Header
    requires m < HEADER_SIZE
  {
    DecodeHeader(EncodeHeader(h)[..m] + Fill(junk, HEADER_SIZE - m))
  }

  lemma PatchedKeeps(h: Header, m: nat, junk: bytes)
    requires m < HEADER_SIZE
    ensures m >= 2 ==> Patched(h, m, junk).count == h.count
    ensures m == 3 ==> Patched(h, m, junk).max >= h.max % 0x100
    ensures m >= 4 ==> Patched(h, m, junk).max == h.max
  {
    var b, b' := EncodeHeader(h), EncodeHeader(h)[..m] + Fill(junk, HEADER_SIZE - m);
    assert b[..2] == U16Bytes(h.count) && b[2..4] == U16Bytes(h.max);
    assert m >= 2 ==> b'[..2] == b[..2];
    assert m >= 4 ==> b'[2..4] == b[2..4];
    assert m == 3 ==> b'[2..4][0] == b'[2] == b[2] == b[2..4][0];
    U16BytesRoundTrip(b[..2]);
    U16BytesRoundTrip(b[2..4]);
  }

  /** Two headers that agree on the first `m` bytes. */
  predicate Agree(h: Header, h': Header, m: nat) {
    && (m >= 1 ==> h.count % 0x100 == h'.count % 0x100)
    && (m >= 2 ==> h.count == h'.count)
    && (m >= 3 ==> h.max % 0x100 == h'.max % 0x100)
    && (m >= 4 ==> h == h')
  }

  /** Any header that agrees with the bytes left can be what is read. */
  lemma PatchedAny(h: Header, h': Header, m: nat)
    requires m < HEADER_SIZE && Agree(h, h', m)
    ensures Patched(h, m, EncodeHeader(h')[m..]) == h'
  {
    var b, b' := EncodeHeader(h), EncodeHeader(h');
    assert b[0] == h.count % 0x100 && b'[0] == h'.count % 0x100 && b[2] == h.max % 0x100 && b'[2] == h'.max % 0x100;
    assert b[1] == h.count / 0x100 && b'[1] == h'.count / 0x100;
    assert b[..m] == b'[..m];
    assert b'[m..][..HEADER_SIZE - m] == b'[m..];
    assert b[..m] + b'[m..] == b';
    HeaderRoundTrip(h');
  }

  lemma CutHeaderStep(op: Op, files: Files, h: Header, m: nat, o: Outcome)
    requires HeaderCut(files, h, m) && o.Success?
    ensures Step(ReadHeader(op), files, o) == (AfterHeader(op, Patched(h, m, o.junk)), files)
  {
    hide EncodeHeader, DecodeHeader, AfterHeader;
    assert files[DB_PATH][..m] == EncodeHeader(h)[..m];
  }

  /** The count is that of any header the bytes left can be completed to. */
  lemma CutHeaderCounts(files: Files, h: Header, m: nat, h': Header)
    requires HeaderCut(files, h, m) && Agree(h, h', m)
    ensures Call(Count, files, [Success(EncodeHeader(h')[m..])]).0 == Counted(h'.count)
  {
    hide EncodeHeader, DecodeHeader, Step, Patched, Agree;
    var o := Success(EncodeHeader(h')[m..]);
    PatchedAny(h, h', m);
    CutHeaderStep(Count, files, h, m, o);
    RunUnfolds(ReadHeader(Count), files, [o]);
  }

  /** Another count with the same first `m` bytes, for m below 2. */
  function OtherCount(count: u16, m: nat, avoid: nat): (c: u16)
    ensures c != avoid && (m == 1 ==> c % 0x100 == count % 0x100)
  {
    if m == 1 then (if count % 0x100 == avoid then count % 0x100 + 0x100 else count % 0x100)
    else (if avoid == 0 then 1 else 0)
  }

  lemma CountOf(db: Db)
    requires Fits(db)
    ensures Answer(db, Count) == Counted(|db.cards|)
  {
  }

  lemma CutHeaderAnswers(q: Op, files: Files, db: Db, h: Header, m: nat, script: seq<Outcome>)
    requires HeaderCut(files, h, m) && CardsThere(files, db.cards) && m >= 2 && h.count == |db.cards|
    requires ReadsOnly(q) && Quiet(script)
    ensures Call(q, files, script).0 == Answer(db, q)
  {
    hide Run, Step, EncodeHeader, DecodeHeader, Patched, Answer, AfterHeader, CardsThere;
    QuietTail(script);
    var h' := Patched(h, m, Head(script).junk);
    PatchedKeeps(h, m, Head(script).junk);
    CutHeaderStep(q, files, h, m, Head(script));
    RunUnfolds(ReadHeader(q), files, script);
    CountAnswers(q, db, h', files, Tail(script));
  }

  /**
   Reading calls answer as the list does, whatever their reads pick up, exactly
   if both bytes of the count are there and give its length.
   */
  lemma CutHeaderUnseen(files: Files, db: Db, h: Header, m: nat)
    requires HeaderCut(files, h, m) && Fits(db) && CardsThere(files, db.cards)
    ensures Unseen(files, db) <==> m >= 2 && h.count == |db.cards|
  {
    hide Call, Run, Step, EncodeHeader, DecodeHeader, Patched, Answer;
    if m >= 2 && h.count == |db.cards| {
      forall q, script | ReadsOnly(q) && Quiet(script)
        ensures Call(q, files, script).0 == Answer(db, q)
      {
        CutHeaderAnswers(q, files, db, h, m, script);
      }
    } else {
      var c := if m >= 2 then h.count else OtherCount(h.count, m, |db.cards|);
      var script := [Success(EncodeHeader(h.(count := c))[m..])];
      CutHeaderCounts(files, h, m, h.(count := c));
      assert Quiet(script) && Call(Count, files, script).0 == Counted(c);
      CountOf(db);
    }
  }

  // ---- The validity check on such disks ----

  /** The check accepts, whatever its reads pick up. */
  ghost predicate AlwaysValid(files: Files) {
    forall script :: Quiet(script) ==> Call(Validate, files, script).0 == Verdict(true)
  }

  lemma CutHeaderVerdict(files: Files, h: Header, m: nat, script: seq<Outcome>)
    requires HeaderCut(files, h, m) && Quiet(script)
    ensures var h' := Patched(h, m, Head(Tail(script)).junk);
            Call(Validate, files, script).0
            == Verdict(h'.count <= h'.max && (h'.count > 0 ==>
                 CARDS_PATH in files && |files[CARDS_PATH]| == CARD_SIZE * h'.count))
  {
    hide EncodeHeader, DecodeHeader, Patched;
    var script1 := Tail(script);
    var script2 := Tail(script1);
    QuietTail(script);
    QuietTail(script1);
    QuietTail(script2);
    QuietTail(Tail(script2));
    var h' := Patched(h, m, Head(script1).junk);
    RunUnfolds(StatDb(Validate), files, script);
    CutHeaderStep(Validate, files, h, m, Head(script1));
    RunUnfolds(ReadHeader(Validate), files, script1);
    if h'.count <= h'.max {
      if h'.count > 0 {
        RunUnfolds(StatCards(Validate, h'), files, script2);
        RunUnfolds(SizeCards(h'), files, Tail(script2));
      } else {
        RunUnfolds(SizeCards(h'), files, script2);
      }
    }
  }

  /** The least capacity that can be read when `m` bytes are left. */
  function LeastMax(max: u16, m: nat): u16 {
    if m >= 4 then max else if m == 3 then max % 0x100 else 0
  }

  /** What is read there at worst: a count too high, or no capacity. */
  function Worst(h: Header, m: nat): (h': Header)
    ensures m < 4 ==> Agree(h, h', m)
  {
    if m == 0 then Header(1, 0, 0)
    else if m == 1 then Header(h.count % 0x100 + 0x100, 0, 0)
    else h.(max := LeastMax(h.max, m))
  }

  lemma QuietJunk(script: seq<Outcome>)
    requires Quiet(script)
    ensures Head(Tail(script)).Success?
  {
    QuietTail(script);
    QuietTail(Tail(script));
  }

  lemma IntactSize(files: Files, db: Db)
    requires CardsHeld(files, db.cards) && db.cards != []
    ensures CARDS_PATH in files && |files[CARDS_PATH]| == CARD_SIZE * |db.cards|
  {
  }

  lemma WorstRejected(files: Files, db: Db, m: nat)
    requires Fits(db) && HeaderCut(files, HeaderOf(db), m)
    requires m < 2 || |db.cards| > LeastMax(db.max, m)
    ensures !AlwaysValid(files)
  {
    hide Call, Run, Step, EncodeHeader, DecodeHeader, Patched, Agree;
    var h := HeaderOf(db);
    var h' := Worst(h, m);
    var script := [Success([]), Success(EncodeHeader(h')[m..])];
    assert Quiet(script) && Head(Tail(script)) == script[1];
    PatchedAny(h, h', m);
    CutHeaderVerdict(files, h, m, script);
    assert Call(Validate, files, script).0 == Verdict(false);
  }

  /** With its header cut off, an intact list is sure to pass exactly if enough of the header is left. */
  lemma CutHeaderChecked(files: Files, db: Db, m: nat)
    requires Fits(db) && HeaderCut(files, HeaderOf(db), m) && CardsHeld(files, db.cards)
    ensures AlwaysValid(files) <==> m >= 2 && |db.cards| <= LeastMax(db.max, m)
  {
    hide Call, Run, Step, EncodeHeader, DecodeHeader, Patched, Agree, Quiet;
    var h := HeaderOf(db);
    if m >= 2 && |db.cards| <= LeastMax(db.max, m) {
      forall script | Quiet(script)
        ensures Call(Validate, files, script).0 == Verdict(true)
      {
        QuietJunk(script);
        CutHeaderVerdict(files, h, m, script);
        PatchedKeeps(h, m, Head(Tail(script)).junk);
        if db.cards != [] {
          IntactSize(files, db);
        }
      }
    } else {
      WorstRejected(files, db, m);
    }
  }

  // ---- Calls that write the header ----

  predicate WritesHeader(op: Op) {
    op.Add? || op.Remove? || op.Save? || op.Format?
  }

  /** How many accesses an accepted call makes before its header write. */
  function HeaderAt(op: Op, db: Db): nat {
    if op.Format? then 0 else if op.Save? || (op.Add? && db.cards == []) then 1 else 3
  }

  /** The cards the call has at hand when it writes the header. */
  function AtHand(op: Op, db: Db): seq<Card> {
    if op.Remove? then Apply(db, op).cards else []
  }

  lemma ScriptAt(script: seq<Outcome>, k: nat)
    requires k < |script|
    ensures Head(script[k..]) == script[k] && Tail(script[k..]) == script[k + 1..]
  {
  }

  lemma QuietAt(script: seq<Outcome>, n: nat, k: nat)
    requires k < n <= |script| && Quiet(script[..n])
    ensures Head(script[k..]) == script[k] && script[k].Success? && Tail(script[k..]) == script[k + 1..]
  {
    assert script[k] == script[..n][k] && script[..n][k] in script[..n];
    ScriptAt(script, k);
  }

  lemma WriteOf(op: Op, db: Db)
    requires Fits(db) && WritesHeader(op) && Answer(db, op) == Code(Ok)
    ensures var write := WriteHeader(op, HeaderOf(Apply(db, op)), AtHand(op, db));
            && (op.Format? ==> Begin(op) == write)
            && (op.Save? || (op.Add? && db.cards == []) ==> AfterHeader(op, HeaderOf(db)) == write)
            && (op.Remove? || (op.Add? && db.cards != []) ==>
                  AfterHeader(op, HeaderOf(db)) == Allocate(op, HeaderOf(db))
                  && AfterCards(op, HeaderOf(db), db.cards) == write)
  {
  }

  lemma ReadableCards(op: Op, db: Db, files: Files, o: Outcome)
    requires Readable(files, db) && o.Success? && db.cards != []
    ensures Step(ReadCards(op, HeaderOf(db)), files, o) == (AfterCards(op, HeaderOf(db), db.cards), files)
  {
    CardsReadStep(op, HeaderOf(db), db.cards, files, o);
  }

  /** An accepted call stands before its header write after that many accesses. */
  lemma ReachesHeaderWrite(op: Op, db: Db, files: Files, script: seq<Outcome>)
    requires Readable(files, db) && WritesHeader(op) && Answer(db, op) == Code(Ok)
    requires var n := HeaderAt(op, db); n <= |script| && Quiet(script[..n])
    ensures Call(op, files, script)
            == Run(WriteHeader(op, HeaderOf(Apply(db, op)), AtHand(op, db)), files, script[HeaderAt(op, db)..])
  {
    hide Step, Run, Apply, Quiet, AfterHeader, AfterCards, EncodeHeader, EncodeCards;
    var n, h := HeaderAt(op, db), HeaderOf(db);
    assert script[0..] == script;
    WriteOf(op, db);
    if n > 0 {
      QuietAt(script, n, 0);
      HeaderReadStep(op, db, files, script[0]);
      RunUnfolds(ReadHeader(op), files, script);
      if n == 3 {
        QuietAt(script, n, 1);
        QuietAt(script, n, 2);
        AllocateStep(op, h, files, script[1]);
        RunUnfolds(Allocate(op, h), files, script[1..]);
        ReadableCards(op, db, files, script[2]);
        RunUnfolds(ReadCards(op, h), files, script[2..]);
      }
    }
  }

  /** The write of `size` bytes fails and says so. */
  predicate FailsToWrite(o: Outcome, size: nat) {
    o.Fails? || (o.Short? && o.moved < size)
  }

  /** The files when this much of the new header has been put down. */
  function WithHeader(files: Files, h: Header, o: Outcome): Files {
    if o.Fails? then files else files[DB_PATH := EncodeHeader(h)[..Moved(o, HEADER_SIZE)]]
  }

  lemma HeaderWriteGives(files: Files, h: Header, o: Outcome)
    ensures Written(files, DB_PATH, EncodeHeader(h), false, o).1 == WithHeader(files, h, o)
    ensures Written(files, DB_PATH, EncodeHeader(h), false, o).0 <==> !FailsToWrite(o, HEADER_SIZE)
  {
    if !o.Fails? {
      var part := EncodeHeader(h)[..Moved(o, HEADER_SIZE)];
      assert [] + part == part;
    }
  }

  lemma RepresentedReadable(files: Files, db: Db)
    requires Represents(files, db)
    ensures Readable(files, db)
  {
  }

  /**
   A call whose header write fails reports failure. Check, count, list and dump
   answer as before, whatever their reads pick up, exactly if the file could not
   be opened at all, or the two bytes of the count were written and are the old ones.
   */
  lemma FailedHeaderWrite(op: Op, db: Db, files: Files, script: seq<Outcome>)
    requires Represents(files, db) && WritesHeader(op) && Answer(db, op) == Code(Ok)
    requires var n := HeaderAt(op, db);
             n < |script| && Quiet(script[..n]) && FailsToWrite(script[n], HEADER_SIZE)
    ensures var bad := script[HeaderAt(op, db)];
            var (reply, files', rest) := Call(op, files, script);
            && reply == Code(Fail) && rest == script[HeaderAt(op, db) + 1..]
            && files' == WithHeader(files, HeaderOf(Apply(db, op)), bad)
            && (Unseen(files', db) <==> bad.Fails? || (bad.moved >= 2 && |Apply(db, op).cards| == |db.cards|))
  {
    hide Step, Run, Apply, Answer, Call, EncodeHeader, EncodeCards, Unseen, Quiet;
    PathsDiffer();
    var n, h := HeaderAt(op, db), HeaderOf(Apply(db, op));
    var bad := script[n];
    RepresentedReadable(files, db);
    ReachesHeaderWrite(op, db, files, script);
    ScriptAt(script, n);
    RunWriteHeader(op, h, AtHand(op, db), files, script[n..]);
    HeaderWriteGives(files, h, bad);
    if bad.Fails? {
      ReadableUnseen(files, db);
    } else {
      CutHeaderUnseen(WithHeader(files, h, bad), db, h, bad.moved);
    }
  }

  // ---- Writes that lose bytes and report success ----

  /** Program points from which a call touches nothing but the cards file. */
  predicate OnlyCards(pc: Pc) {
    pc.AppendCard? || pc.WriteCards? || pc.Finished?
    || ((pc.StatCards? || pc.UnlinkCards?) && (pc.op.Remove? || pc.op.Format?))
  }

  lemma HeaderKept(pc: Pc, files: Files, header: bytes, o: Outcome)
    requires OnlyCards(pc) && o.Success?
    ensures var (pc', files') := Step(pc, files, o);
            OnlyCards(pc') && Step(pc, files[DB_PATH := header], o) == (pc', files'[DB_PATH := header])
  {
    PathsDiffer();
    hide EncodeCard, EncodeCards;
    if pc.AppendCard? || pc.WriteCards? {
      var file := Step(pc, files, o).1;
      if CARDS_PATH in file {
        var cards := file[CARDS_PATH];
        assert files[DB_PATH := header][CARDS_PATH := cards] == files[CARDS_PATH := cards][DB_PATH := header];
      }
    } else if pc.UnlinkCards? {
      assert files[DB_PATH := header] - {CARDS_PATH} == (files - {CARDS_PATH})[DB_PATH := header];
    }
  }

  lemma StepRanks(pc: Pc, files: Files, o: Outcome)
    requires !pc.Finished?
    ensures Rank(Step(pc, files, o).0) < Rank(pc)
  {
  }

  /** From there on what the header file holds makes no difference. */
  lemma {:induction false} RunKeepsHeader(pc: Pc, files: Files, header: bytes, script: seq<Outcome>)
    requires OnlyCards(pc) && Quiet(script)
    ensures var (reply, files', rest) := Run(pc, files, script);
            Run(pc, files[DB_PATH := header], script) == (reply, files'[DB_PATH := header], rest)
    decreases Rank(pc)
  {
    if pc.Finished? {
    } else {
      hide *;
      QuietTail(script);
      HeaderKept(pc, files, header, Head(script));
      var (pc', files') := Step(pc, files, Head(script));
      StepRanks(pc, files, Head(script));
      RunUnfolds(pc, files, script);
      RunUnfolds(pc, files[DB_PATH := header], script);
      RunKeepsHeader(pc', files', header, Tail(script));
    }
  }

  lemma WriteOutline(op: Op, db: Db, files: Files)
    requires Represents(files, db) && WritesHeader(op) && Answer(db, op) == Code(Ok)
    ensures Refused(op).None?
    ensures Outline(op, db, WriteHeader(op, HeaderOf(Apply(db, op)), AtHand(op, db)), files)
  {
  }

  /** With its whole header written, a call ends with the files standing for the changed list. */
  lemma RestOfCall(op: Op, db: Db, files: Files, rest: seq<Outcome>)
    requires Represents(files, db) && WritesHeader(op) && Answer(db, op) == Code(Ok) && Quiet(rest)
    ensures var h := HeaderOf(Apply(db, op));
            var pc := AfterHeaderWrite(op, h, AtHand(op, db));
            OnlyCards(pc) && Ends(op, db, Run(pc, files[DB_PATH := EncodeHeader(h)], rest))
  {
    hide Step, Run, Outline, Ends, EncodeHeader, Apply, Answer;
    var h := HeaderOf(Apply(db, op));
    var write := WriteHeader(op, h, AtHand(op, db));
    WriteOutline(op, db, files);
    StepKeepsOutline(op, db, write, files, Success([]));
    HeaderWrittenStep(op, h, AtHand(op, db), files, Success([]));
    RunKeepsOutline(op, db, AfterHeaderWrite(op, h, AtHand(op, db)), files[DB_PATH := EncodeHeader(h)], rest);
  }

  lemma HeldThere(files: Files, cards: seq<Card>)
    requires CardsHeld(files, cards)
    ensures CardsThere(files, cards)
  {
  }

  /**
   A header write that loses bytes goes unnoticed by the call, which reports
   success. Reading calls answer from the changed list, whatever their reads pick
   up, exactly if the count was written; the check is sure to accept exactly if
   what was written of the capacity covers the count.
   */
  lemma LostHeaderWrite(op: Op, db: Db, files: Files, script: seq<Outcome>)
    requires Represents(files, db) && WritesHeader(op) && Answer(db, op) == Code(Ok)
    requires var n := HeaderAt(op, db);
             && n < |script| && Quiet(script[..n]) && Quiet(script[n + 1..])
             && script[n].Lost? && script[n].moved < HEADER_SIZE
    ensures var db', m := Apply(db, op), script[HeaderAt(op, db)].moved;
            var (reply, files', _) := Call(op, files, script);
            && reply == Code(Ok) && HeaderCut(files', HeaderOf(db'), m) && CardsHeld(files', db'.cards)
            && (Unseen(files', db') <==> m >= 2)
            && (AlwaysValid(files') <==> m >= 2 && |db'.cards| <= LeastMax(db'.max, m))
  {
    hide Step, Run, Apply, Answer, Call, EncodeHeader, EncodeCards, Unseen, AlwaysValid, Quiet, LeastMax;
    PathsDiffer();
    var n, db' := HeaderAt(op, db), Apply(db, op);
    var h, m := HeaderOf(db'), script[n].moved;
    var part := EncodeHeader(h)[..m];
    RepresentedReadable(files, db);
    ReachesHeaderWrite(op, db, files, script);
    ScriptAt(script, n);
    RunWriteHeader(op, h, AtHand(op, db), files, script[n..]);
    HeaderWriteGives(files, h, script[n]);
    RestOfCall(op, db, files, script[n + 1..]);
    var whole := files[DB_PATH := EncodeHeader(h)];
    assert whole[DB_PATH := part] == files[DB_PATH := part];
    RunKeepsHeader(AfterHeaderWrite(op, h, AtHand(op, db)), whole, part, script[n + 1..]);
    var files' := Call(op, files, script).1;
    HeldThere(files', db'.cards);
    CutHeaderUnseen(files', db', h, m);
    CutHeaderChecked(files', db', m);
  }

  /** The size of what a call writes to the cards file. */
  function CardsWriteSize(op: Op, db: Db): nat {
    if op.Add? then CARD_SIZE else CARD_SIZE * |Apply(db, op).cards|
  }

  lemma QuietTake(script: seq<Outcome>, n: nat)
    requires 0 < n <= |script| && Quiet(script[..n])
    ensures Quiet(script[..n - 1])
  {
    assert forall i :: 0 <= i < n - 1 ==> script[..n - 1][i] == script[..n][i];
  }

  /** Everything up to the cards write, for an add, or for a removal that leaves cards. */
  lemma ReachesCardsWrite(op: Op, db: Db, files: Files, script: seq<Outcome>)
    requires Readable(files, db) && Answer(db, op) == Code(Ok)
    requires op.Add? || (op.Remove? && |db.cards| > 1)
    requires var n := HeaderAt(op, db) + 1; n < |script| && Quiet(script[..n])
    ensures var n, h := HeaderAt(op, db) + 1, HeaderOf(Apply(db, op));
            var torn := files[DB_PATH := EncodeHeader(h)];
            var pc := if op.Add? then AppendCard(h, NewCard(op)) else WriteCards(Apply(db, op).cards);
            Call(op, files, script) == Run(pc, torn, script[n..])
  {
    hide Step, Run, Answer, Call, EncodeHeader, EncodeCards, Quiet;
    var n, h := HeaderAt(op, db), HeaderOf(Apply(db, op));
    QuietTake(script, n + 1);
    ReachesHeaderWrite(op, db, files, script);
    QuietAt(script, n + 1, n);
    RunWriteHeader(op, h, AtHand(op, db), files, script[n..]);
    HeaderWriteGives(files, h, script[n]);
    assert EncodeHeader(h)[..HEADER_SIZE] == EncodeHeader(h);
  }

  /** A cards write that loses bytes reports success too; the check always sees it. */
  lemma LostCardsWrite(op: Op, db: Db, files: Files, script: seq<Outcome>)
    requires Represents(files, db) && Answer(db, op) == Code(Ok)
    requires op.Add? || (op.Remove? && |db.cards| > 1)
    requires var n := HeaderAt(op, db) + 1;
             && n < |script| && Quiet(script[..n])
             && script[n].Lost? && script[n].moved < CardsWriteSize(op, db)
    ensures var (reply, files', _) := Call(op, files, script);
            reply == Code(Ok) && HeaderHeld(files', HeaderOf(Apply(db, op))) && !Validates(files')
  {
    hide Step, Run, Call, EncodeHeader, DecodeHeader, EncodeCard, EncodeCards, Validates, Quiet;
    PathsDiffer();
    var n, h := HeaderAt(op, db) + 1, HeaderOf(Apply(db, op));
    var torn := files[DB_PATH := EncodeHeader(h)];
    RepresentedReadable(files, db);
    ReachesCardsWrite(op, db, files, script);
    ScriptAt(script, n);
    HeaderRoundTrip(h);
    if op.Add? {
      RunAppendCard(h, NewCard(op), torn, script[n..]);
    } else {
      RunWriteCards(Apply(db, op).cards, torn, script[n..]);
    }
    ValidatesIff(Call(op, files, script).1);
  }

  // ---- Failed writes to the cards file ----

  /** The bytes an append puts down before it fails. */
  function Fragment(card: Card, bad: Outcome): bytes {
    EncodeCard(card)[..Moved(bad, CARD_SIZE)]
  }

  /** The files as they were, with that fragment behind the records. */
  function LeftBehind(files: Files, card: Card, bad: Outcome): Files {
    if bad.Fails? then files
    else files[CARDS_PATH := CardsFile(files) + Fragment(card, bad)]
  }

  lemma FailedAddRun(op: Op, db: Db, files: Files, script: seq<Outcome>)
    requires Readable(files, db) && op.Add? && Answer(db, op) == Code(Ok)
    requires var n := HeaderAt(op, db) + 1;
             n + 1 < |script| && Quiet(script[..n]) && FailsToWrite(script[n], CARD_SIZE)
    ensures var n := HeaderAt(op, db) + 1;
            var torn := files[DB_PATH := EncodeHeader(HeaderOf(Apply(db, op)))];
            Call(op, files, script)
            == (Code(Fail),
                WithHeader(LeftBehind(torn, NewCard(op), script[n]), HeaderOf(db), script[n + 1]),
                script[n + 2..])
  {
    hide Step, Run, Call, EncodeHeader, EncodeCard, EncodeCards, Quiet;
    PathsDiffer();
    var n, h := HeaderAt(op, db) + 1, HeaderOf(Apply(db, op));
    var torn := files[DB_PATH := EncodeHeader(h)];
    ReachesCardsWrite(op, db, files, script);
    ScriptAt(script, n);
    ScriptAt(script, n + 1);
    RunAppendCard(h, NewCard(op), torn, script[n..]);
    HeaderWriteGives(LeftBehind(torn, NewCard(op), script[n]), HeaderOf(db), script[n + 1]);
  }

  /** A whole header with another count shows. */
  lemma OtherCountSeen(files: Files, db: Db, h: Header)
    requires Fits(db) && HeaderHeld(files, h) && h.count != |db.cards|
    ensures !Unseen(files, db)
  {
    hide EncodeHeader, DecodeHeader, Run;
    var script: seq<Outcome> := [];
    HeaderRoundTrip(h);
    assert files[DB_PATH][..HEADER_SIZE] == files[DB_PATH];
    RunReadHeader(Count, files, script);
    RunFinished(Counted(h.count), files, Tail(script));
    assert Quiet(script) && ReadsOnly(Count) && Call(Count, files, script).0 == Counted(h.count);
  }

  lemma LeftBehindSize(db: Db, files: Files, card: Card, bad: Outcome)
    requires Represents(files, db)
    ensures var files' := LeftBehind(files, card, bad);
            |CardsFile(files')| == CARD_SIZE * |db.cards| + |Fragment(card, bad)| && CardsThere(files', db.cards)
  {
  }

  lemma LeftBehindValidates(db: Db, files: Files, h: Header, extra: nat)
    requires HeaderHeld(files, h) && h.max == db.max && Fits(db) && extra < CARD_SIZE
    requires |CardsFile(files)| == CARD_SIZE * |db.cards| + extra && CardsThere(files, db.cards)
    ensures h.count == |db.cards| ==> (Validates(files) <==> db.cards == [] || extra == 0)
    ensures h.count == |db.cards| + 1 ==> !Validates(files)
  {
    HeaderRoundTrip(h);
    ValidatesIff(files);
  }

  /** What the rollback leaves: the fragment, under this much of the old header or under the new one. */
  lemma RolledBack(op: Op, db: Db, files: Files, bad: Outcome, undo: Outcome)
    requires Represents(files, db) && op.Add? && Answer(db, op) == Code(Ok)
    ensures var torn := files[DB_PATH := EncodeHeader(HeaderOf(Apply(db, op)))];
            var files' := WithHeader(LeftBehind(torn, NewCard(op), bad), HeaderOf(db), undo);
            && CardsThere(files', db.cards)
            && |CardsFile(files')| == CARD_SIZE * |db.cards| + |Fragment(NewCard(op), bad)|
            && (undo.Fails? ==> HeaderHeld(files', HeaderOf(Apply(db, op))))
            && (!undo.Fails? && Moved(undo, HEADER_SIZE) < HEADER_SIZE ==>
                  HeaderCut(files', HeaderOf(db), Moved(undo, HEADER_SIZE)))
            && (!undo.Fails? && Moved(undo, HEADER_SIZE) == HEADER_SIZE ==>
                  files' == LeftBehind(files, NewCard(op), bad) && HeaderHeld(files', HeaderOf(db)))
  {
    hide EncodeHeader, EncodeCard, EncodeCards, Apply, NewCard;
    PathsDiffer();
    var header := EncodeHeader(HeaderOf(Apply(db, op)));
    var card := NewCard(op);
    LeftBehindSize(db, files, card, bad);
    assert LeftBehind(files[DB_PATH := header], card, bad) == LeftBehind(files, card, bad)[DB_PATH := header];
    assert EncodeHeader(HeaderOf(db))[..HEADER_SIZE] == EncodeHeader(HeaderOf(db));
    assert files[DB_PATH := files[DB_PATH]] == files;
  }

  /**
   An add whose append fails after any part of the record reports failure. Check,
   count, list and dump answer as before, whatever their reads pick up, exactly if
   the rollback wrote at least the two bytes of the count. If it wrote the whole
   header, the header bytes and the counted records are what they were, and the
   check rejects the disk exactly when bytes went down behind existing cards; if
   it could not open the file, the check rejects the disk.
   */
  lemma FailedAddInvisible(op: Op, db: Db, files: Files, script: seq<Outcome>)
    requires Represents(files, db) && op.Add? && Answer(db, op) == Code(Ok)
    requires var n := HeaderAt(op, db) + 1;
             n + 1 < |script| && Quiet(script[..n]) && FailsToWrite(script[n], CARD_SIZE)
    ensures var bad, undo := script[HeaderAt(op, db) + 1], script[HeaderAt(op, db) + 2];
            var (reply, files', rest) := Call(op, files, script);
            && reply == Code(Fail) && rest == script[HeaderAt(op, db) + 3..]
            && (Unseen(files', db) <==> !undo.Fails? && Moved(undo, HEADER_SIZE) >= 2)
            && (!undo.Fails? && Moved(undo, HEADER_SIZE) == HEADER_SIZE ==>
                  && files' == LeftBehind(files, NewCard(op), bad) && Readable(files', db)
                  && (Validates(files') <==> db.cards == [] || Fragment(NewCard(op), bad) == []))
            && (undo.Fails? ==> !Validates(files'))
  {
    hide Step, Run, Call, EncodeHeader, EncodeCard, EncodeCards, Unseen, Validates, Quiet, NewCard, CardsThere;
    var n := HeaderAt(op, db) + 1;
    var bad, undo := script[n], script[n + 1];
    var h' := HeaderOf(Apply(db, op));
    RepresentedReadable(files, db);
    FailedAddRun(op, db, files, script);
    RolledBack(op, db, files, bad, undo);
    var files' := Call(op, files, script).1;
    var extra := |Fragment(NewCard(op), bad)|;
    if undo.Fails? {
      OtherCountSeen(files', db, h');
      LeftBehindValidates(db, files', h', extra);
    } else if Moved(undo, HEADER_SIZE) < HEADER_SIZE {
      CutHeaderUnseen(files', db, HeaderOf(db), Moved(undo, HEADER_SIZE));
    } else {
      ReadableUnseen(files', db);
      LeftBehindValidates(db, files', HeaderOf(db), extra);
    }
  }

  lemma AppendedHolds(cards: seq<Card>, card: Card, files: Files)
    requires CardsThere(files, cards)
    ensures CardsHeld(files[CARDS_PATH := CardsFile(files) + EncodeCard(card)], cards + [card])
            <==> |CardsFile(files)| == CARD_SIZE * |cards|
  {
    hide EncodeCard, EncodeCards;
    EncodeAppend(cards, card);
    var file := CardsFile(files);
    assert EncodeCards(cards) <= file by {
      assert cards == [] ==> |EncodeCards(cards)| == 0;
    }
    assert |file| == CARD_SIZE * |cards| ==> file == EncodeCards(cards);
  }

  lemma SameCards(files: Files, files': Files, cards: seq<Card>)
    requires CARDS_PATH in files <==> CARDS_PATH in files'
    requires CARDS_PATH in files ==> files[CARDS_PATH] == files'[CARDS_PATH]
    ensures CardsThere(files, cards) <==> CardsThere(files', cards)
    ensures CardsFile(files) == CardsFile(files')
  {
  }

  /**
   Such bytes stay: after a later add the disk stands for the longer list exactly
   if the cards file had the size that the count asks for.
   */
  lemma AddNeedsWholeDisk(op: Op, db: Db, files: Files, script: seq<Outcome>)
    requires Readable(files, db) && op.Add? && Answer(db, op) == Code(Ok) && Quiet(script)
    ensures var (reply, files', _) := Call(op, files, script);
            && reply == Code(Ok)
            && (Represents(files', Apply(db, op)) <==> |CardsFile(files)| == CARD_SIZE * |db.cards|)
  {
    hide Call, EncodeHeader, EncodeCard, EncodeCards, CardsHeld, CardsThere, NewCard, Quiet, CardsFile;
    PathsDiffer();
    AddRun(op, db, files, script);
    var torn := files[DB_PATH := EncodeHeader(HeaderOf(Apply(db, op)))];
    SameCards(files, torn, db.cards);
    AppendedHolds(db.cards, NewCard(op), torn);
  }

  lemma LastCardStops(op: Op, db: Db, files: Files, script: seq<Outcome>)
    requires Represents(files, db) && op.Remove? && Answer(db, op) == Code(Ok) && |db.cards| == 1
    requires |script| > 5 && Quiet(script[..5])
    ensures Call(op, files, script)
            == Run(UnlinkCards(op), files[DB_PATH := EncodeHeader(HeaderOf(Apply(db, op)))], script[5..])
  {
    PathsDiffer();
    hide Step, Run, Call, EncodeHeader, EncodeCards, Quiet;
    var h := HeaderOf(Apply(db, op));
    QuietTake(script, 5);
    QuietTake(script, 4);
    QuietAt(script, 5, 3);
    QuietAt(script, 5, 4);
    RepresentedReadable(files, db);
    ReachesHeaderWrite(op, db, files, script);
    RunWriteHeader(op, h, [], files, script[3..]);
    HeaderWriteGives(files, h, script[3]);
    assert EncodeHeader(h)[..HEADER_SIZE] == EncodeHeader(h);
    RunStatCards(op, h, files[DB_PATH := EncodeHeader(h)], script[4..]);
  }

  lemma SplitCards(cards: seq<Card>)
    requires cards != []
    ensures EncodeCards(cards[..|cards| - 1]) <= EncodeCards(cards)
  {
    hide EncodeCard;
    assert cards == cards[..|cards| - 1] + [cards[|cards| - 1]];
    EncodeAppend(cards[..|cards| - 1], cards[|cards| - 1]);
  }

  /** The same header and records are right for any list whose records the file starts with. */
  lemma ShorterReadable(files: Files, db: Db, h: Header)
    requires Fits(db) && db.cards != [] && HeaderHeld(files, h) && h.max == db.max
    requires h.count == |db.cards| - 1 && h.checksum == db.checksum
    requires CARDS_PATH in files && files[CARDS_PATH] == EncodeCards(db.cards)
    ensures Readable(files, db.(cards := db.cards[..|db.cards| - 1]))
  {
    SplitCards(db.cards);
  }

  function DumpScript(junk: bytes): (script: seq<Outcome>)
    ensures Quiet(script)
  {
    [Success([]), Success([]), Success(junk)]
  }

  lemma DumpReads(files: Files, h: Header, junk: bytes)
    requires HeaderHeld(files, h) && h.count > 0 && CARDS_PATH in files
    requires |files[CARDS_PATH]| + |junk| == CARD_SIZE * h.count
    ensures Call(Dump, files, DumpScript(junk)).0
            == Listed(Ok, DecodeCards(files[CARDS_PATH] + junk, h.count))
  {
    hide EncodeHeader, DecodeHeader, Run, Step, DecodeCards;
    var script := DumpScript(junk);
    HeaderRoundTrip(h);
    assert files[DB_PATH][..HEADER_SIZE] == files[DB_PATH];
    RunReadHeader(Dump, files, script);
    RunAllocate(Dump, h, files, script[1..]);
    assert Tail(script) == script[1..] && Tail(script[1..]) == script[2..] && Head(script[2..]) == Success(junk);
    var file := files[CARDS_PATH];
    assert file[..|file|] == file && junk[..|junk|] == junk;
    assert ReadBack(files, CARDS_PATH, CARD_SIZE * h.count, Success(junk)) == Some(file + junk);
    RunReadCards(Dump, h, files, script[2..]);
    RunFinished(Listed(Ok, DecodeCards(file + junk, h.count)), files, Tail(script[2..]));
  }

  /** A cards file that is too short reads differently from one time to the next. */
  lemma ShortCardsSeen(files: Files, h: Header, d: Db)
    requires HeaderHeld(files, h) && h.count > 0 && CARDS_PATH in files
    requires |files[CARDS_PATH]| < CARD_SIZE * h.count
    ensures !Unseen(files, d)
  {
    hide EncodeHeader, DecodeHeader, Call, Run, Step, ReadBack, DecodeCards;
    var size := CARD_SIZE * h.count;
    var missing := size - |files[CARDS_PATH]|;
    var ones: bytes := seq(missing, _ => 1);
    DumpReads(files, h, Zeros(missing));
    DumpReads(files, h, ones);
    var a, b := files[CARDS_PATH] + Zeros(missing), files[CARDS_PATH] + ones;
    assert a[|files[CARDS_PATH]|] == 0 && b[|files[CARDS_PATH]|] == 1;
    CardsBytesRoundTrip(a, h.count);
    CardsBytesRoundTrip(b, h.count);
    var script, script' := DumpScript(Zeros(missing)), DumpScript(ones);
    assert ReadsOnly(Dump) && Quiet(script) && Quiet(script');
    assert Call(Dump, files, script).0 != Call(Dump, files, script').0;
  }

  /**
   A removal whose cards file cannot be rewritten, or whose last card's file cannot
   be deleted, reports failure. Nothing is rolled back: the header counts one
   card fewer, and the check sees it exactly if cards are left to count. If the
   file was not touched, reading calls answer as if the last card of the list had
   been removed, whichever was asked for; if it was cut off, what they answer is
   that of no list at all.
   */
  lemma FailedRemoval(op: Op, db: Db, files: Files, script: seq<Outcome>)
    requires Represents(files, db) && op.Remove? && Answer(db, op) == Code(Ok)
    requires var n := if |db.cards| > 1 then 4 else 5;
             && n < |script| && Quiet(script[..n])
             && if |db.cards| > 1 then FailsToWrite(script[n], CARD_SIZE * (|db.cards| - 1)) else script[n].Fails?
    ensures var bad := script[if |db.cards| > 1 then 4 else 5];
            var (reply, files', _) := Call(op, files, script);
            && reply == Code(Fail)
            && HeaderHeld(files', HeaderOf(Apply(db, op)))
            && (Validates(files') <==> |db.cards| == 1)
            && (bad.Fails? ==> Unseen(files', db.(cards := db.cards[..|db.cards| - 1])))
            && (!bad.Fails? ==> forall d :: !Unseen(files', d))
  {
    PathsDiffer();
    hide Step, Run, Call, EncodeHeader, DecodeHeader, EncodeCards, DecodeCards, Validates, Unseen, Quiet, Readable;
    var db', n := Apply(db, op), if |db.cards| > 1 then 4 else 5;
    var torn := files[DB_PATH := EncodeHeader(HeaderOf(db'))];
    RepresentedReadable(files, db);
    HeaderRoundTrip(HeaderOf(db'));
    if |db.cards| > 1 {
      ReachesCardsWrite(op, db, files, script);
      ScriptAt(script, 4);
      RunWriteCards(db'.cards, torn, script[4..]);
    } else {
      LastCardStops(op, db, files, script);
      ScriptAt(script, 5);
      RunUnlinkCards(op, torn, script[5..]);
    }
    var files' := Call(op, files, script).1;
    ValidatesIff(files');
    if script[n].Fails? {
      ShorterReadable(files', db, HeaderOf(db'));
      ReadableUnseen(files', db.(cards := db.cards[..|db.cards| - 1]));
    } else {
      forall d ensures !Unseen(files', d) {
        ShortCardsSeen(files', HeaderOf(db'), d);
      }
    }
  }

  /** So the card to be removed is still accepted unless it was the last, and the last one is gone. */
  lemma WrongCardRemoved(op: Op, db: Db, files: Files, script: seq<Outcome>, check: seq<Outcome>)
    requires Represents(files, db) && op.Remove? && Answer(db, op) == Code(Ok) && Distinct(db.cards)
    requires |db.cards| > 1 && |script| > 4 && Quiet(script[..4]) && script[4].Fails? && Quiet(check)
    ensures var files', last := Call(op, files, script).1, db.cards[|db.cards| - 1].id;
            && Call(Check(last), files', check).0 == Code(NotFound)
            && (op.id != last ==> Call(Check(op.id), files', check).0 == Answer(db, Check(op.id)))
  {
    hide Call, Represents, Validates, HeaderHeld;
    FailedRemoval(op, db, files, script);
    var n := |db.cards| - 1;
    var left := db.(cards := db.cards[..n]);
    FindAppend(left.cards, db.cards[n], op.id);
    assert db.cards == left.cards + [db.cards[n]];
    assert Find(left.cards, db.cards[n].id) == n;
  }
}
