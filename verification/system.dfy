/**
 Any number of tasks calling the card database at once. A task takes the mutex,
 makes its storage accesses one at a time, and gives the mutex back; steps of
 different tasks interleave in every possible way.
 */
module System {
  import opened Base
  import opened Codec
  import opened Storage
  import opened Protocol
  import opened CardList
  import opened Refinement
  import opened Crash
  import opened Defaults

  /** A call under way: its program point, and how its accesses came out so far. */
  datatype Open = Open(op: Op, pc: Pc, outcomes: seq<Outcome>)

  datatype Task = Task(todo: seq<Op>, call: Option<Open>, replies: seq<Reply>)

  /** A finished call; `outcomes` is what its accesses met. */
  datatype Entry = Entry(task: nat, op: Op, outcomes: seq<Outcome>)

  /** `history` records finished calls; nothing else depends on it. */
  datatype State = State(files: Files, mutex: Option<nat>, tasks: seq<Task>, history: seq<Entry>)

  datatype Event =
    | Refuse(t: nat)              // returns before asking for the mutex
    | Take(t: nat)                // gets the mutex
    | Access(t: nat, o: Outcome)  // one storage access or allocation
    | Give(t: nat)                // releases the mutex and returns

  predicate Enabled(s: State, e: Event) {
    e.t < |s.tasks| &&
    var task := s.tasks[e.t];
    match e
    case Refuse(_) => task.call.None? && task.todo != [] && Refused(task.todo[0]).Some?
    case Take(_) => task.call.None? && task.todo != [] && Refused(task.todo[0]).None? && s.mutex.None?
    case Access(_, _) => task.call.Some? && !task.call.value.pc.Finished?
    case Give(_) => task.call.Some? && task.call.value.pc.Finished?
  }

  function Next(s: State, e: Event): State
    requires Enabled(s, e)
  {
    var task := s.tasks[e.t];
    match e
    case Refuse(t) =>
      var op := task.todo[0];
      s.(tasks := s.tasks[t := Task(task.todo[1..], None, task.replies + [Refused(op).value])],
         history := s.history + [Entry(t, op, [])])
    case Take(t) =>
      var op := task.todo[0];
      s.(tasks := s.tasks[t := Task(task.todo[1..], Some(Open(op, Begin(op), [])), task.replies)],
         mutex := Some(t))
    case Access(t, o) =>
      var call := task.call.value;
      var (pc', files') := Step(call.pc, s.files, o);
      s.(tasks := s.tasks[t := task.(call := Some(Open(call.op, pc', call.outcomes + [o])))],
         files := files')
    case Give(t) =>
      var call := task.call.value;
      s.(tasks := s.tasks[t := Task(task.todo, None, task.replies + [call.pc.reply])],
         mutex := None,
         history := s.history + [Entry(t, call.op, call.outcomes)])
  }

  /** The state after these events, if they can happen in this order. */
  function Exec(s: State, events: seq<Event>): Option<State> {
    if events == [] then Some(s)
    else
      var n := |events| - 1;
      var before := Exec(s, events[..n]);
      if before.Some? && Enabled(before.value, events[n]) then Some(Next(before.value, events[n])) else None
  }

  ghost predicate Initial(s: State) {
    && s.mutex.None? && s.history == []
    && forall t :: 0 <= t < |s.tasks| ==> s.tasks[t].call.None? && s.tasks[t].replies == []
  }

  // ---- The same calls, one after the other ----

  /** The files after running the calls of a history one by one. */
  function SerialFiles(files: Files, history: seq<Entry>): Files {
    if history == [] then files
    else
      var n := |history| - 1;
      Call(history[n].op, SerialFiles(files, history[..n]), history[n].outcomes).1
  }

  /** The replies task `t` gets when they run so. */
  function SerialReplies(files: Files, history: seq<Entry>, t: nat): seq<Reply> {
    if history == [] then []
    else
      var n := |history| - 1;
      var e := history[n];
      SerialReplies(files, history[..n], t)
      + (if e.task == t then [Call(e.op, SerialFiles(files, history[..n]), e.outcomes).0] else [])
  }

  /** The calls of task `t`, in order. */
  function CallsOf(history: seq<Entry>, t: nat): seq<Op> {
    if history == [] then []
    else
      var n := |history| - 1;
      CallsOf(history[..n], t) + (if history[n].task == t then [history[n].op] else [])
  }

  function Calling(task: Task): seq<Op> {
    if task.call.None? then [] else [task.call.value.op]
  }

  /** Only the task with the mutex is inside a call. */
  ghost predicate Exclusive(s: State) {
    && (forall t :: 0 <= t < |s.tasks| ==> (s.tasks[t].call.Some? <==> s.mutex == Some(t)))
    && (s.mutex.Some? ==> s.mutex.value < |s.tasks|)
  }

  /** Each task's finished, current and remaining calls are its program, in program order. */
  ghost predicate InOrder(s0: State, s: State) {
    && |s.tasks| == |s0.tasks|
    && forall t :: 0 <= t < |s.tasks| ==>
         s0.tasks[t].todo == CallsOf(s.history, t) + Calling(s.tasks[t]) + s.tasks[t].todo
  }

  /** The call holding the mutex, continued in any way, ends as it would started on the serial files. */
  ghost predicate Ongoing(files: Files, call: Open, now: Files) {
    && Refused(call.op).None?
    && forall rest :: Run(Begin(call.op), files, call.outcomes + rest) == Run(call.pc, now, rest)
  }

  ghost predicate Serial(s0: State, s: State) {
    && Exclusive(s)
    && InOrder(s0, s)
    && (forall t :: 0 <= t < |s.tasks| ==> s.tasks[t].replies == SerialReplies(s0.files, s.history, t))
    && (if s.mutex.None? then s.files == SerialFiles(s0.files, s.history)
        else Ongoing(SerialFiles(s0.files, s.history), s.tasks[s.mutex.value].call.value, s.files))
  }

  lemma {:induction false} SerialExtends(files: Files, history: seq<Entry>, e: Entry, t: nat)
    ensures var h := history + [e];
            && SerialFiles(files, h) == Call(e.op, SerialFiles(files, history), e.outcomes).1
            && SerialReplies(files, h, t) == SerialReplies(files, history, t)
               + (if e.task == t then [Call(e.op, SerialFiles(files, history), e.outcomes).0] else [])
            && CallsOf(h, t) == CallsOf(history, t) + (if e.task == t then [e.op] else [])
  {
    assert (history + [e])[..|history|] == history;
  }

  lemma OngoingStep(files: Files, call: Open, now: Files, o: Outcome)
    requires Ongoing(files, call, now) && !call.pc.Finished?
    ensures var (pc', now') := Step(call.pc, now, o);
            Ongoing(files, Open(call.op, pc', call.outcomes + [o]), now')
  {
    hide Step;
    var (pc', now') := Step(call.pc, now, o);
    forall rest
      ensures Run(Begin(call.op), files, call.outcomes + [o] + rest) == Run(pc', now', rest)
    {
      assert call.outcomes + [o] + rest == call.outcomes + ([o] + rest);
      assert Head([o] + rest) == o && Tail([o] + rest) == rest;
      RunUnfolds(call.pc, now, [o] + rest);
    }
  }

  lemma OngoingEnds(files: Files, call: Open, now: Files)
    requires Ongoing(files, call, now) && call.pc.Finished?
    ensures Call(call.op, files, call.outcomes) == (call.pc.reply, now, [])
  {
    assert call.outcomes + [] == call.outcomes;
    assert Run(Begin(call.op), files, call.outcomes + []) == Run(call.pc, now, []);
  }

  lemma RefusedCall(op: Op, files: Files)
    requires Refused(op).Some?
    ensures Call(op, files, []) == (Refused(op).value, files, [])
  {
  }

  lemma RefuseSerial(s0: State, s: State, t: nat)
    requires Serial(s0, s) && Enabled(s, Refuse(t))
    ensures Serial(s0, Next(s, Refuse(t)))
  {
    hide Run, Refused, Call, Ongoing, SerialFiles, SerialReplies, CallsOf;
    var task, s' := s.tasks[t], Next(s, Refuse(t));
    var entry := Entry(t, task.todo[0], []);
    RefusedCall(entry.op, SerialFiles(s0.files, s.history));
    SerialExtends(s0.files, s.history, entry, t);
    assert Exclusive(s');
    forall u: nat | u < |s.tasks|
      ensures s0.tasks[u].todo == CallsOf(s'.history, u) + Calling(s'.tasks[u]) + s'.tasks[u].todo
      ensures s'.tasks[u].replies == SerialReplies(s0.files, s'.history, u)
    {
      SerialExtends(s0.files, s.history, entry, u);
      if u == t {
        assert task.todo == [entry.op] + task.todo[1..];
        assert Calling(task) == [] && Calling(s'.tasks[t]) == [];
      }
    }
  }

  lemma TakeSerial(s0: State, s: State, t: nat)
    requires Serial(s0, s) && Enabled(s, Take(t))
    ensures Serial(s0, Next(s, Take(t)))
  {
    hide Run, Refused, Begin;
    var task, s' := s.tasks[t], Next(s, Take(t));
    var op := task.todo[0];
    assert task.todo == [op] + task.todo[1..];
    assert Ongoing(s.files, Open(op, Begin(op), []), s.files) by {
      assert forall rest: seq<Outcome> :: [] + rest == rest;
    }
  }

  lemma AccessSerial(s0: State, s: State, t: nat, o: Outcome)
    requires Serial(s0, s) && Enabled(s, Access(t, o))
    ensures Serial(s0, Next(s, Access(t, o)))
  {
    hide Step, Run, Refused, Begin;
    assert s.mutex == Some(t);
    var call, s' := s.tasks[t].call.value, Next(s, Access(t, o));
    OngoingStep(SerialFiles(s0.files, s.history), call, s.files, o);
    assert s'.history == s.history && s'.mutex == s.mutex;
    assert Calling(s'.tasks[t]) == Calling(s.tasks[t]);
  }

  lemma GiveSerial(s0: State, s: State, t: nat)
    requires Serial(s0, s) && Enabled(s, Give(t))
    ensures Serial(s0, Next(s, Give(t)))
  {
    hide Run, Refused, Begin, Call, SerialFiles, SerialReplies, CallsOf;
    assert s.mutex == Some(t);
    var call, s' := s.tasks[t].call.value, Next(s, Give(t));
    var entry := Entry(t, call.op, call.outcomes);
    OngoingEnds(SerialFiles(s0.files, s.history), call, s.files);
    forall u: nat
      ensures SerialFiles(s0.files, s'.history) == s.files
      ensures SerialReplies(s0.files, s'.history, u) == SerialReplies(s0.files, s.history, u)
                + (if t == u then [call.pc.reply] else [])
      ensures CallsOf(s'.history, u) == CallsOf(s.history, u) + (if t == u then [entry.op] else [])
    {
      SerialExtends(s0.files, s.history, entry, u);
    }
  }

  lemma NextSerial(s0: State, s: State, e: Event)
    requires Serial(s0, s) && Enabled(s, e)
    ensures Serial(s0, Next(s, e))
  {
    hide *;
    match e
    case Refuse(t) => RefuseSerial(s0, s, t);
    case Take(t) => TakeSerial(s0, s, t);
    case Access(t, o) => AccessSerial(s0, s, t, o);
    case Give(t) => GiveSerial(s0, s, t);
  }

  /**
   Every execution, whatever storage does, is serial: the finished calls run one
   at a time in the order they had the mutex, each meeting the same outcomes,
   give every task the replies it got and leave the files as they are.
   */
  lemma {:induction false} Serializable(s0: State, events: seq<Event>, s: State)
    requires Initial(s0) && Exec(s0, events) == Some(s)
    ensures Serial(s0, s)
    decreases |events|
  {
    if events == [] {
    } else {
      var n := |events| - 1;
      var before := Exec(s0, events[..n]).value;
      Serializable(s0, events[..n], before);
      NextSerial(s0, before, events[n]);
    }
  }

  // ---- On storage that never fails ----

  ghost predicate FaultFree(events: seq<Event>) {
    forall e :: e in events && e.Access? ==> e.o.Success?
  }

  /** The access list after a history. */
  function Folded(db: Db, history: seq<Entry>): Db {
    if history == [] then db
    else
      var n := |history| - 1;
      Apply(Folded(db, history[..n]), history[n].op)
  }

  /** What the list itself answers the calls of task `t`. */
  function Answers(db: Db, history: seq<Entry>, t: nat): seq<Reply> {
    if history == [] then []
    else
      var n := |history| - 1;
      Answers(db, history[..n], t)
      + (if history[n].task == t then [Answer(Folded(db, history[..n]), history[n].op)] else [])
  }

  /**
   The disk stands for the folded list whenever the mutex is free, and is where
   the outline says while a call holds it; replies are the list's answers.
   */
  ghost predicate Linear(db: Db, s: State) {
    var now := Folded(db, s.history);
    && Fits(now)
    && (forall t :: 0 <= t < |s.tasks| ==> s.tasks[t].replies == Answers(db, s.history, t))
    && (if s.mutex.None? then Represents(s.files, now)
        else if s.mutex.value < |s.tasks| && s.tasks[s.mutex.value].call.Some? then
          var call := s.tasks[s.mutex.value].call.value;
          Refused(call.op).None? && Outline(call.op, now, call.pc, s.files)
        else false)
  }

  lemma {:induction false} LinearExtends(db: Db, history: seq<Entry>, e: Entry, t: nat)
    ensures Folded(db, history + [e]) == Apply(Folded(db, history), e.op)
    ensures Answers(db, history + [e], t) == Answers(db, history, t)
              + (if e.task == t then [Answer(Folded(db, history), e.op)] else [])
  {
    assert (history + [e])[..|history|] == history;
  }

  lemma RefusedApply(db: Db, op: Op)
    requires Refused(op).Some?
    ensures Apply(db, op) == db && Answer(db, op) == Refused(op).value
  {
  }

  lemma RefuseLinear(db: Db, s: State, t: nat)
    requires Exclusive(s) && Linear(db, s) && Enabled(s, Refuse(t))
    ensures Linear(db, Next(s, Refuse(t)))
  {
    hide Outline, Represents, Apply, Answer, Refused, Folded, Answers;
    var op := s.tasks[t].todo[0];
    RefusedApply(Folded(db, s.history), op);
    forall u: nat
      ensures Folded(db, Next(s, Refuse(t)).history) == Folded(db, s.history)
      ensures Answers(db, Next(s, Refuse(t)).history, u) == Answers(db, s.history, u)
                + (if t == u then [Refused(op).value] else [])
    {
      LinearExtends(db, s.history, Entry(t, op, []), u);
    }
  }

  lemma TakeLinear(db: Db, s: State, t: nat)
    requires Exclusive(s) && Linear(db, s) && Enabled(s, Take(t))
    ensures Linear(db, Next(s, Take(t)))
  {
    hide Outline, Represents, Apply, Answer, Refused, Folded, Answers, Begin;
    BeginOutline(s.tasks[t].todo[0], Folded(db, s.history), s.files);
  }

  lemma AccessLinear(db: Db, s: State, t: nat, o: Outcome)
    requires Exclusive(s) && Linear(db, s) && Enabled(s, Access(t, o)) && o.Success?
    ensures Linear(db, Next(s, Access(t, o)))
  {
    hide Outline, Represents, Apply, Answer, Refused, Folded, Answers, Step;
    var call := s.tasks[t].call.value;
    assert s.mutex == Some(t);
    StepKeepsOutline(call.op, Folded(db, s.history), call.pc, s.files, o);
  }

  lemma FinishedOutline(op: Op, db: Db, pc: Pc, files: Files)
    requires Fits(db) && Outline(op, db, pc, files) && pc.Finished?
    ensures Fits(Apply(db, op)) && Represents(files, Apply(db, op)) && pc.reply == Answer(db, op)
  {
  }

  lemma GiveLinear(db: Db, s: State, t: nat)
    requires Exclusive(s) && Linear(db, s) && Enabled(s, Give(t))
    ensures Linear(db, Next(s, Give(t)))
  {
    hide Outline, Represents, Apply, Answer, Refused, Folded, Answers;
    var call := s.tasks[t].call.value;
    assert s.mutex == Some(t);
    FinishedOutline(call.op, Folded(db, s.history), call.pc, s.files);
    forall u: nat
      ensures Folded(db, Next(s, Give(t)).history) == Apply(Folded(db, s.history), call.op)
      ensures Answers(db, Next(s, Give(t)).history, u) == Answers(db, s.history, u)
                + (if t == u then [Answer(Folded(db, s.history), call.op)] else [])
    {
      LinearExtends(db, s.history, Entry(t, call.op, call.outcomes), u);
    }
  }

  lemma NextLinear(db: Db, s: State, e: Event)
    requires Exclusive(s) && Linear(db, s) && Enabled(s, e) && (e.Access? ==> e.o.Success?)
    ensures Linear(db, Next(s, e))
  {
    hide *;
    match e
    case Refuse(t) => RefuseLinear(db, s, t);
    case Take(t) => TakeLinear(db, s, t);
    case Access(t, o) => AccessLinear(db, s, t, o);
    case Give(t) => GiveLinear(db, s, t);
  }

  /**
   Without storage faults the two files behave as one atomic access list: every
   execution gives each task the answers of the list, changed by whole calls in
   the order they had the mutex, and the disk stands for that list whenever the
   mutex is free.
   */
  lemma {:induction false} Linearizable(s0: State, db: Db, events: seq<Event>, s: State)
    requires Initial(s0) && Represents(s0.files, db)
    requires Exec(s0, events) == Some(s) && FaultFree(events)
    ensures Linear(db, s)
    decreases |events|
  {
    if events == [] {
    } else {
      var n := |events| - 1;
      var before := Exec(s0, events[..n]).value;
      Linearizable(s0, db, events[..n], before);
      Serializable(s0, events[..n], before);
      assert events[n] in events;
      NextLinear(db, before, events[n]);
    }
  }

  lemma HeldMutex(op: Op, db: Db, pc: Pc, files: Files)
    requires Fits(db) && Outline(op, db, pc, files)
    ensures WholeHeader(files)
    ensures Validates(files) <==>
            Represents(files, db) || Represents(files, Apply(db, op)) || HeaderOn(files).count == 0
  {
    hide Outline, Validates, Apply;
    WholeOrTorn(op, db, pc, files);
    if BetweenWrites(op, pc) {
      TornValidates(op, db, pc, files);
    }
    if Represents(files, db) {
      RepresentsValidates(files, db);
    }
    if Represents(files, Apply(db, op)) {
      RepresentsValidates(files, Apply(db, op));
    }
  }

  /**
   Cut the power at any moment of such an execution: the validity check accepts
   the disk exactly if it stands for the list, for the list with the call then
   under way applied, or has a header counting no cards.
   */
  lemma PowerLossDetected(s0: State, db: Db, events: seq<Event>, s: State)
    requires Initial(s0) && Represents(s0.files, db)
    requires Exec(s0, events) == Some(s) && FaultFree(events)
    ensures WholeHeader(s.files)
    ensures var now := Folded(db, s.history);
            Validates(s.files) <==>
              || Represents(s.files, now)
              || (exists t :: 0 <= t < |s.tasks| && s.mutex == Some(t) && s.tasks[t].call.Some?
                              && Represents(s.files, Apply(now, s.tasks[t].call.value.op)))
              || HeaderOn(s.files).count == 0
  {
    Linearizable(s0, db, events, s);
    Serializable(s0, events, s);
    var now := Folded(db, s.history);
    if s.mutex.None? {
      RepresentsValidates(s.files, now);
    } else {
      var call := s.tasks[s.mutex.value].call.value;
      HeldMutex(call.op, now, call.pc, s.files);
    }
  }

  /**
   At any moment of such an execution, whoever holds the mutex, load_defaults
   looks for the header file without taking it. It finds it and writes nothing;
   only if stat fails on the file does it put an empty header in its place.
   */
  lemma StartupHarmless(s0: State, db: Db, events: seq<Event>, s: State, script: seq<Outcome>)
    requires Initial(s0) && Represents(s0.files, db)
    requires Exec(s0, events) == Some(s) && FaultFree(events)
    ensures !Head(script).Fails? ==> Ensured(s.files, script) == (true, s.files, Tail(script))
    ensures Head(script).Fails? && Head(Tail(script)).Success? ==>
              Ensured(s.files, script).1 == s.files[DB_PATH := EncodeHeader(EMPTY_HEADER)]
  {
    hide EncodeHeader, Exec, Initial;
    PowerLossDetected(s0, db, events, s);
    assert [] + EncodeHeader(EMPTY_HEADER)[..HEADER_SIZE] == EncodeHeader(EMPTY_HEADER);
  }

  // ---- Safety of runs from a fresh database ----

  lemma {:induction false} FoldedGood(db: Db, history: seq<Entry>)
    requires Good(db)
    ensures Good(Folded(db, history))
  {
    if history == [] {
    } else {
      FoldedGood(db, history[..|history| - 1]);
      ApplyKeepsGood(Folded(db, history[..|history| - 1]), history[|history| - 1].op);
    }
  }

  lemma {:induction false} AnswersGood(db: Db, history: seq<Entry>, t: nat)
    requires Good(db)
    ensures |Answers(db, history, t)| == |CallsOf(history, t)|
    ensures forall j :: 0 <= j < |CallsOf(history, t)| && CallsOf(history, t)[j].Check? ==>
              Answers(db, history, t)[j] in {Code(Ok), Code(NotFound)}
  {
    if history == [] {
    } else {
      var n := |history| - 1;
      AnswersGood(db, history[..n], t);
      FoldedGood(db, history[..n]);
      GoodAnswers(Folded(db, history[..n]), history[n].op);
    }
  }

  lemma {:induction false} AdminThroughout(db: Db, history: seq<Entry>, i: nat)
    requires i <= |history| && Has(Folded(db, history[..i]), ADMIN_CARD_ID)
    requires forall k :: i <= k < |history| ==> !history[k].op.Format?
    ensures Has(Folded(db, history), ADMIN_CARD_ID)
    decreases |history|
  {
    if i == |history| {
      assert history[..i] == history;
    } else {
      var n := |history| - 1;
      assert history[..n][..i] == history[..i];
      AdminThroughout(db, history[..n], i);
      AdminStays(Folded(db, history[..n]), history[n].op);
    }
  }

  /**
   In every fault-free run from a fresh database: ids stay distinct, at most 200
   cards are stored, each active and with a terminated name; no check is ever
   answered "inactive"; and the admin card, once stored, stays until a format.
   */
  lemma SafeRuns(s0: State, events: seq<Event>, s: State)
    requires Initial(s0) && Represents(s0.files, EMPTY)
    requires Exec(s0, events) == Some(s) && FaultFree(events)
    ensures Good(Folded(EMPTY, s.history))
    ensures s.mutex.None? ==> Represents(s.files, Folded(EMPTY, s.history))
    ensures forall t, j :: 0 <= t < |s.tasks| && 0 <= j < |s.tasks[t].replies| ==>
              j < |CallsOf(s.history, t)| &&
              (CallsOf(s.history, t)[j].Check? ==> s.tasks[t].replies[j] in {Code(Ok), Code(NotFound)})
    ensures forall i :: 0 <= i <= |s.history| && Has(Folded(EMPTY, s.history[..i]), ADMIN_CARD_ID)
              && (forall k :: i <= k < |s.history| ==> !s.history[k].op.Format?)
              ==> Has(Folded(EMPTY, s.history), ADMIN_CARD_ID)
  {
    Linearizable(s0, EMPTY, events, s);
    FoldedGood(EMPTY, s.history);
    forall t | 0 <= t < |s.tasks|
      ensures |s.tasks[t].replies| == |CallsOf(s.history, t)|
      ensures forall j :: 0 <= j < |s.tasks[t].replies| && CallsOf(s.history, t)[j].Check? ==>
                s.tasks[t].replies[j] in {Code(Ok), Code(NotFound)}
    {
      AnswersGood(EMPTY, s.history, t);
    }
    forall i | 0 <= i <= |s.history| && Has(Folded(EMPTY, s.history[..i]), ADMIN_CARD_ID)
      && (forall k :: i <= k < |s.history| ==> !s.history[k].op.Format?)
      ensures Has(Folded(EMPTY, s.history), ADMIN_CARD_ID)
    {
      AdminThroughout(EMPTY, s.history, i);
    }
  }
}
