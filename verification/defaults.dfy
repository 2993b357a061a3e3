/** The three default cards, and what loading them does to a list. */
module Defaults {
  import opened Base
  import opened Codec
  import opened Storage
  import opened Protocol
  import opened CardList
  import opened Refinement
  import opened Crash

  /** What time(NULL) and the padding of a local record are at the moment of a call. */
  datatype Moment = Moment(now: u32, pad: Pad)

  datatype Default = Default(id: u32, name: CString)

  function DefaultCards(): (r: seq<Default>)
    ensures |r| == 3
    ensures r[0].id == ADMIN_CARD_ID
    ensures forall i, j :: 0 <= i < j < |r| ==> r[i].id != r[j].id
  {
    [Default(ADMIN_CARD_ID, Ascii("Admin Card")),
     Default(0x87654321, Ascii("User Card 1")),
     Default(0xABCDEF00, Ascii("User Card 2"))]
  }

  function AddDefault(i: nat, at: Moment): Op
    requires i < 3
  {
    Add(DefaultCards()[i].id, DefaultCards()[i].name, at.now, at.pad)
  }

  predicate DistinctAdds(ops: seq<Op>) {
    && (forall i :: 0 <= i < |ops| ==> ops[i].Add?)
    && (forall i, j :: 0 <= i < j < |ops| ==> ops[i].id != ops[j].id)
  }

  /** The adds of load_defaults, made at these moments. */
  function DefaultAdds(at: seq<Moment>): (ops: seq<Op>)
    requires |at| == 3
    ensures |ops| == 3 && DistinctAdds(ops)
  {
    [AddDefault(0, at[0]), AddDefault(1, at[1]), AddDefault(2, at[2])]
  }

  /** Adds in turn; a card already there is skipped, a full database ends it. */
  function AddAll(db: Db, ops: seq<Op>): (EspErr, Db)
    requires forall i :: 0 <= i < |ops| ==> ops[i].Add?
    decreases |ops|
  {
    if ops == [] then (Ok, db)
    else if Answer(db, ops[0]) == Code(NoMem) then (NoMem, db)
    else AddAll(Apply(db, ops[0]), ops[1..])
  }

  /** The cards of these adds that the list does not have yet. */
  function Missing(db: Db, ops: seq<Op>): seq<Card>
    requires forall i :: 0 <= i < |ops| ==> ops[i].Add?
  {
    if ops == [] then []
    else (if Has(db, ops[0].id) then [] else [NewCard(ops[0])]) + Missing(db, ops[1..])
  }

  lemma {:induction false} MissingAfterAdd(db: Db, op: Op, ops: seq<Op>)
    requires op.Add? && forall i :: 0 <= i < |ops| ==> ops[i].Add? && ops[i].id != op.id
    ensures Missing(Apply(db, op), ops) == Missing(db, ops)
  {
    if ops == [] {
    } else {
      OthersKept(db, op, ops[0].id);
      MissingAfterAdd(db, op, ops[1..]);
    }
  }

  /** The list with as many of these cards appended as there is room for. */
  function Extended(db: Db, more: seq<Card>): Db
    requires Fits(db)
  {
    db.(cards := db.cards + more[..Min(|more|, db.max - |db.cards|)])
  }

  lemma ExtendedByOne(db: Db, c: Card, more: seq<Card>)
    requires |db.cards| < db.max
    ensures Extended(db.(cards := db.cards + [c]), more) == Extended(db, [c] + more)
  {
    var k := Min(|more|, db.max - |db.cards| - 1);
    assert db.cards + [c] + more[..k] == db.cards + ([c] + more)[..k + 1];
  }

  lemma ExtendedWhenFull(db: Db, more: seq<Card>)
    requires Fits(db) && (|db.cards| == db.max || more == [])
    ensures Extended(db, more) == db
  {
    assert db.cards + [] == db.cards;
    assert more[..0] == [];
  }

  /**
   Loading keeps what is there in front, in order, and appends the missing cards
   in order as far as there is room; it reports Ok exactly if all of them fit.
   */
  lemma {:induction false} LoadedCards(db: Db, ops: seq<Op>)
    requires Fits(db) && DistinctAdds(ops)
    decreases |ops|
    ensures var (err, db') := AddAll(db, ops);
            && db' == Extended(db, Missing(db, ops))
            && err == (if |db.cards| + |Missing(db, ops)| <= db.max then Ok else NoMem)
  {
    hide NewCard, Extended;
    if ops == [] {
      ExtendedWhenFull(db, []);
    } else {
      var db1 := Apply(db, ops[0]);
      MissingAfterAdd(db, ops[0], ops[1..]);
      if Answer(db, ops[0]) != Code(NoMem) {
        LoadedCards(db1, ops[1..]);
        if Has(db, ops[0].id) {
          assert [] + Missing(db, ops[1..]) == Missing(db, ops[1..]);
        } else {
          ExtendedByOne(db, NewCard(ops[0]), Missing(db, ops[1..]));
        }
      } else {
        ExtendedWhenFull(db, Missing(db, ops));
      }
    }
  }

  predicate SameIds(ops: seq<Op>, ops': seq<Op>) {
    |ops| == |ops'| && forall i :: 0 <= i < |ops| ==> ops[i].Add? && ops'[i].Add? && ops[i].id == ops'[i].id
  }

  lemma {:induction false} HasLonger(db: Db, db': Db, id: u32)
    requires Has(db, id) && db.cards <= db'.cards
    ensures Has(db', id)
  {
    HasIffIn(db, id);
    HasIffIn(db', id);
    assert db.cards[Find(db.cards, id)] == db'.cards[Find(db.cards, id)];
  }

  /** Once loaded, loading again at any other time changes nothing and reports the same. */
  lemma {:induction false} LoadingIsIdempotent(db: Db, ops: seq<Op>, ops': seq<Op>)
    requires Fits(db) && DistinctAdds(ops) && SameIds(ops, ops')
    decreases |ops|
    ensures var (err, db') := AddAll(db, ops); AddAll(db', ops') == (err, db')
  {
    if ops != [] && Answer(db, ops[0]) != Code(NoMem) {
      var db1 := Apply(db, ops[0]);
      LoadingIsIdempotent(db1, ops[1..], ops'[1..]);
      LoadedCards(db1, ops[1..]);
      FindAppend(db.cards, NewCard(ops[0]), ops[0].id);
      assert Has(db1, ops[0].id);
      HasLonger(db1, AddAll(db1, ops[1..]).1, ops[0].id);
    }
  }

  /** From an empty database all three go in, in order. */
  lemma LoadedFromEmpty(at: seq<Moment>)
    requires |at| == 3
    ensures var ops := DefaultAdds(at);
            AddAll(EMPTY, ops) == (Ok, EMPTY.(cards := [NewCard(ops[0]), NewCard(ops[1]), NewCard(ops[2])]))
  {
    var ops := DefaultAdds(at);
    LoadedCards(EMPTY, ops);
    assert Missing(EMPTY, ops[1..][1..][1..]) == [];
    assert Missing(EMPTY, ops[1..][1..]) == [NewCard(ops[2])];
    assert Missing(EMPTY, ops[1..]) == [NewCard(ops[1]), NewCard(ops[2])];
    var missing := [NewCard(ops[0]), NewCard(ops[1]), NewCard(ops[2])];
    assert Missing(EMPTY, ops) == missing;
    assert [] + missing[..3] == missing;
  }

  lemma AddGrows(db: Db, op: Op)
    requires op.Add?
    ensures var db' := Apply(db, op);
            && db' == db.(cards := db'.cards) && db.cards <= db'.cards
            && (db' == db <==> Answer(db, op) != Code(Ok))
            && Answer(db, op) in {Code(Ok), Code(InvalidState), Code(NoMem)}
  {
  }

  /** An add that is turned down touches no file. */
  lemma TurnedDownAdd(op: Op, db: Db, files: Files, script: seq<Outcome>)
    requires Represents(files, db) && op.Add? && Answer(db, op) != Code(Ok) && Quiet(script)
    ensures Call(op, files, script).1 == files
  {
    hide Step, Run;
    var h := HeaderOf(db);
    var script1 := Tail(script);
    var script2 := Tail(script1);
    QuietTail(script);
    QuietTail(script1);
    QuietTail(script2);
    HeaderReadStep(op, db, files, Head(script));
    RunUnfolds(ReadHeader(op), files, script);
    if db.cards != [] {
      AllocateStep(op, h, files, Head(script1));
      RunUnfolds(Allocate(op, h), files, script1);
      CardsReadStep(op, h, db.cards, files, Head(script2));
      RunUnfolds(ReadCards(op, h), files, script2);
      RunFinished(Answer(db, op), files, Tail(script2));
    } else {
      RunFinished(Answer(db, op), files, script1);
    }
  }

  /** A disk on which a boot starts from the list `db`: it stands for it, or holds no database at all. */
  ghost predicate Starts(files: Files, db: Db) {
    Represents(files, db) || (db == EMPTY && DB_PATH !in files && CardsHeld(files, []))
  }

  lemma CreatedHeader(files: Files, o: Outcome)
    requires DB_PATH !in files && CardsHeld(files, []) && o.Success?
    ensures Represents(Written(files, DB_PATH, EncodeHeader(EMPTY_HEADER), false, o).1, EMPTY)
  {
    PathsDiffer();
    assert HeaderOf(EMPTY) == EMPTY_HEADER;
  }

  // ---- The two start-up calls, for every outcome of every access ----

  /** Creates an empty database file if there is none. */
  function Ensured(files: Files, script: seq<Outcome>): (bool, Files, seq<Outcome>) {
    if Exists(files, DB_PATH, Head(script)) then (true, files, Tail(script))
    else
      var (ok, files') := Written(files, DB_PATH, EncodeHeader(EMPTY_HEADER), false, Head(Tail(script)));
      (ok, files', Tail(Tail(script)))
  }

  function InitRun(files: Files, script: seq<Outcome>): (Reply, Files, seq<Outcome>) {
    var (ok, files', rest) := Ensured(files, script);
    if ok then Call(Load, files', rest) else (Code(Fail), files', rest)
  }

  /** Adds in turn until one reports anything but success or "already there". */
  function AddsRun(ops: seq<Op>, files: Files, script: seq<Outcome>): (Reply, Files, seq<Outcome>) {
    if ops == [] then (Code(Ok), files, script)
    else
      var r := Call(ops[0], files, script);
      if r.0 == Code(Ok) || r.0 == Code(InvalidState) then AddsRun(ops[1..], r.1, r.2) else r
  }

  function LoadRun(at: seq<Moment>, files: Files, script: seq<Outcome>): (Reply, Files, seq<Outcome>)
    requires |at| == 3
  {
    var (ok, files', rest) := Ensured(files, script);
    if ok then AddsRun(DefaultAdds(at), files', rest) else (Code(Fail), files', rest)
  }

  function ResetRun(at: seq<Moment>, files: Files, script: seq<Outcome>): (Reply, Files, seq<Outcome>)
    requires |at| == 3
  {
    var r := Call(Format, files, script);
    if r.0 == Code(Ok) then LoadRun(at, r.1, r.2) else r
  }

  lemma EnsuredQuiet(files: Files, script: seq<Outcome>)
    requires Quiet(script)
    ensures var (ok, files', rest) := Ensured(files, script);
            && ok && Quiet(rest)
            && files' == if DB_PATH in files then files else files[DB_PATH := EncodeHeader(EMPTY_HEADER)]
  {
    QuietTail(script);
    QuietTail(Tail(script));
    var b := EncodeHeader(EMPTY_HEADER);
    assert [] + b[..HEADER_SIZE] == b;
  }

  lemma EnsuredStarts(files: Files, script: seq<Outcome>, db: Db)
    requires Starts(files, db) && Quiet(script)
    ensures Represents(Ensured(files, script).1, db)
  {
    hide EncodeHeader;
    EnsuredQuiet(files, script);
    if DB_PATH !in files {
      CreatedHeader(files, Success([]));
      assert [] + EncodeHeader(EMPTY_HEADER)[..HEADER_SIZE] == EncodeHeader(EMPTY_HEADER);
    }
  }

  lemma LoadStops(files: Files, script: seq<Outcome>, h: Header)
    ensures Run(AfterHeader(Load, h), files, script).1 == files
  {
    if h.count > h.max || h.count == 0 {
    } else {
      RunStatCards(Load, h, files, script);
    }
  }

  lemma LoadReads(files: Files, script: seq<Outcome>)
    ensures Call(Load, files, script).1 == files
  {
    RunStatDb(Load, files, script);
    RunReadHeader(Load, files, Tail(script));
    hide Run, Step, DecodeHeader;
    match ReadBack(files, DB_PATH, HEADER_SIZE, Head(Tail(script)))
    case None =>
    case Some(b) =>
      LoadStops(files, Tail(Tail(script)), DecodeHeader(b));
  }

  /** Without faults: an existing valid database is left byte for byte. */
  lemma InitKeeps(files: Files, script: seq<Outcome>, db: Db)
    requires Starts(files, db) && Quiet(script)
    ensures var (reply, files', rest) := InitRun(files, script);
            && reply == Code(Ok) && Represents(files', db) && Quiet(rest)
            && (DB_PATH in files ==> files' == files)
  {
    hide Run, Represents, Starts;
    EnsuredQuiet(files, script);
    EnsuredStarts(files, script, db);
    var (ok, files1, rest) := Ensured(files, script);
    CallRefines(Load, db, files1, rest);
    LoadReads(files1, rest);
  }

  /** Without faults a missing header is created empty, whatever else is on the disk; a left-over cards file stays. */
  lemma InitCreates(files: Files, script: seq<Outcome>)
    requires Quiet(script) && DB_PATH !in files
    ensures var (reply, files', rest) := InitRun(files, script);
            reply == Code(Ok) && files' == files[DB_PATH := EncodeHeader(EMPTY_HEADER)]
  {
    hide Run, Step, EncodeHeader, DecodeHeader;
    EnsuredQuiet(files, script);
    var (ok, files1, rest) := Ensured(files, script);
    QuietTail(rest);
    QuietTail(Tail(rest));
    HeaderRoundTrip(EMPTY_HEADER);
    assert files1[DB_PATH][..HEADER_SIZE] == files1[DB_PATH];
    RunStatDb(Load, files1, rest);
    RunReadHeader(Load, files1, Tail(rest));
    RunFinished(Code(Ok), files1, Tail(Tail(rest)));
  }

  /** Without faults the adds make the list that AddAll gives; if that is the same list, no byte changes. */
  lemma {:induction false} AddsLoad(ops: seq<Op>, db: Db, files: Files, script: seq<Outcome>)
    requires Represents(files, db) && Quiet(script) && forall i :: 0 <= i < |ops| ==> ops[i].Add?
    ensures var (err, db') := AddAll(db, ops);
            var (reply, files', rest) := AddsRun(ops, files, script);
            && reply == Code(err) && Represents(files', db') && Quiet(rest)
            && db.cards <= db'.cards && (db' == db ==> files' == files)
    decreases |ops|
  {
    hide Run, Represents, Call, Apply, Answer;
    if ops == [] {
    } else {
      var op := ops[0];
      CallRefines(op, db, files, script);
      AddGrows(db, op);
      if Answer(db, op) != Code(Ok) {
        TurnedDownAdd(op, db, files, script);
      }
      if Answer(db, op) != Code(NoMem) {
        var r := Call(op, files, script);
        AddsLoad(ops[1..], Apply(db, op), r.1, r.2);
      }
    }
  }

  lemma LoadsDefaults(at: seq<Moment>, db: Db, files: Files, script: seq<Outcome>)
    requires |at| == 3 && Starts(files, db) && Quiet(script)
    ensures var (err, db') := AddAll(db, DefaultAdds(at));
            var (reply, files', rest) := LoadRun(at, files, script);
            && reply == Code(err) && Represents(files', db') && Quiet(rest)
            && (db' == db && DB_PATH in files ==> files' == files)
  {
    hide Represents, Starts, AddAll, AddsRun, DefaultAdds;
    EnsuredQuiet(files, script);
    EnsuredStarts(files, script, db);
    var (ok, files1, rest) := Ensured(files, script);
    AddsLoad(DefaultAdds(at), db, files1, rest);
  }

  /** From any disk whatever, corrupt ones included. */
  lemma ResetLoads(at: seq<Moment>, files: Files, script: seq<Outcome>)
    requires |at| == 3 && Quiet(script)
    ensures var ops := DefaultAdds(at);
            var (reply, files', rest) := ResetRun(at, files, script);
            reply == Code(Ok)
            && Represents(files', EMPTY.(cards := [NewCard(ops[0]), NewCard(ops[1]), NewCard(ops[2])]))
  {
    hide Represents, AddAll, Call, LoadRun;
    FormatFromAnything(files, script);
    var r := Call(Format, files, script);
    LoadedFromEmpty(at);
    LoadsDefaults(at, EMPTY, r.1, r.2);
  }
}
