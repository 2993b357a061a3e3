/** A reader of DNS messages (RFC 1035, sections 4.1 and 4.1.4). */
module DnsMessage {
  import opened Base
  import opened Dns

  const TYPE_A := 1
  const COMPRESSED := 0xC000

  datatype Question = Question(name: Name, qtype: nat, cls: nat)
  datatype Record = Record(name: Name, rtype: nat, cls: nat, ttl: nat, data: bytes)
  datatype Message = Message(id: nat, flags: nat, questions: seq<Question>,
                             answers: seq<Record>, authority: seq<Record>, additional: seq<Record>)

  /** Something read, and the position behind it. */
  datatype Read<+T> = Nothing | Read(value: T, end: nat)

  function U32At(s: bytes, at: nat): nat
    requires at + 4 <= |s|
  {
    U16At(s, at) * 0x1_0000 + U16At(s, at + 2)
  }

  function ReadLabel(msg: bytes, pos: nat, limit: nat): Read<Name>
    requires pos < |msg| && 0 < msg[pos] < 64
    decreases limit, |msg| - pos, 0
  {
    var len: nat := msg[pos];
    if pos + 1 + len > |msg| then Nothing else
      var r := ReadName(msg, pos + 1 + len, limit);
      if r.Nothing? then Nothing else Read(Sub(Slice(msg, pos + 1, len), r.value), r.end)
  }

  /** A name; a pointer leads to an earlier name, so behind the header and before `limit`. */
  function ReadName(msg: bytes, pos: nat, limit: nat): Read<Name>
    decreases limit, |msg| - pos
  {
    if pos >= |msg| then Nothing
    else if msg[pos] == 0 then Read(Root, pos + 1)
    else if msg[pos] < 64 then ReadLabel(msg, pos, limit)
    else if pos + 2 > |msg| || !(COMPRESSED + HEADER <= U16At(msg, pos) < COMPRESSED + limit) then Nothing
    else
      var target := U16At(msg, pos) - COMPRESSED;
      var r := ReadName(msg, target, target);
      if r.Nothing? then Nothing else Read(r.value, pos + 2)
  }

  function ReadQuestion(msg: bytes, pos: nat): Read<Question> {
    var r := ReadName(msg, pos, pos);
    if r.Nothing? || r.end + 4 > |msg| then Nothing
    else Read(Question(r.value, U16At(msg, r.end), U16At(msg, r.end + 2)), r.end + 4)
  }

  function ReadRecord(msg: bytes, pos: nat): Read<Record> {
    var r := ReadName(msg, pos, pos);
    if r.Nothing? || r.end + 10 > |msg| then Nothing else
      var at, len := r.end, U16At(msg, r.end + 8);
      if at + 10 + len > |msg| then Nothing
      else Read(Record(r.value, U16At(msg, at), U16At(msg, at + 2), U32At(msg, at + 4), Slice(msg, at + 10, len)),
                at + 10 + len)
  }

  function ReadQuestions(msg: bytes, pos: nat, count: nat): (r: Read<seq<Question>>)
    ensures r.Read? ==> |r.value| == count
    decreases count
  {
    if count == 0 then Read([], pos) else
      var first := ReadQuestion(msg, pos);
      if first.Nothing? then Nothing else
        var rest := ReadQuestions(msg, first.end, count - 1);
        if rest.Nothing? then Nothing else Read([first.value] + rest.value, rest.end)
  }

  function ReadRecords(msg: bytes, pos: nat, count: nat): (r: Read<seq<Record>>)
    ensures r.Read? ==> |r.value| == count
    decreases count
  {
    if count == 0 then Read([], pos) else
      var first := ReadRecord(msg, pos);
      if first.Nothing? then Nothing else
        var rest := ReadRecords(msg, first.end, count - 1);
        if rest.Nothing? then Nothing else Read([first.value] + rest.value, rest.end)
  }

  /** A whole message, with nothing behind its last record. */
  function ReadMessage(msg: bytes): Option<Message> {
    if |msg| < HEADER then None else
      var q := ReadQuestions(msg, HEADER, U16At(msg, 4));
      if q.Nothing? then None else
        var an := ReadRecords(msg, q.end, U16At(msg, 6));
        if an.Nothing? then None else
          var ns := ReadRecords(msg, an.end, U16At(msg, 8));
          if ns.Nothing? then None else
            var ar := ReadRecords(msg, ns.end, U16At(msg, 10));
            if ar.Nothing? || ar.end != |msg| then None
            else Some(Message(U16At(msg, 0), U16At(msg, 2), q.value, an.value, ns.value, ar.value))
  }

  /** Reading what stands there. */
  lemma {:induction false} HeldReads(msg: bytes, pos: nat, n: Name, limit: nat)
    requires HoldsName(msg, pos, n) && Proper(n)
    ensures ReadName(msg, pos, limit) == Read(n, pos + NameSize(n) + 1)
    decreases n
  {
    if n.Root? {
    } else {
      HeldReads(msg, pos + |n.first| + 1, n.parent, limit);
    }
  }

  /** The first name of a message has no earlier one to point at: what is read stands there. */
  lemma {:induction false} ReadHolds(msg: bytes, pos: nat, limit: nat)
    requires limit <= HEADER && ReadName(msg, pos, limit).Read?
    ensures var r := ReadName(msg, pos, limit);
            Proper(r.value) && HoldsName(msg, pos, r.value) && r.end == pos + NameSize(r.value) + 1
    decreases |msg| - pos
  {
    if msg[pos] != 0 {
      var len: nat := msg[pos];
      assert ReadName(msg, pos, limit) == ReadLabel(msg, pos, limit);
      ReadHolds(msg, pos + 1 + len, limit);
    }
  }

  /** A message with the one question `q` and nothing else. */
  predicate Asks(msg: bytes, id: nat, flags: nat, q: Question) {
    ReadMessage(msg) == Some(Message(id, flags, [q], [], [], []))
  }

  lemma ReadOne(msg: bytes, pos: nat)
    ensures var q, qs := ReadQuestion(msg, pos), ReadQuestions(msg, pos, 1);
            if q.Nothing? then qs.Nothing? else qs == Read([q.value], q.end)
    ensures var a, an := ReadRecord(msg, pos), ReadRecords(msg, pos, 1);
            if a.Nothing? then an.Nothing? else an == Read([a.value], a.end)
  {
    hide ReadQuestion, ReadRecord;
    var q, a := ReadQuestion(msg, pos), ReadRecord(msg, pos);
    if q.Read? {
      assert ReadQuestions(msg, q.end, 0) == Read([], q.end);
      assert [q.value] + [] == [q.value];
    }
    if a.Read? {
      assert ReadRecords(msg, a.end, 0) == Read([], a.end);
      assert [a.value] + [] == [a.value];
    }
  }

  /** What the bytes of a single-question message are. */
  lemma AskingMeans(msg: bytes, id: nat, flags: nat, q: Question)
    requires Asks(msg, id, flags, q)
    ensures Proper(q.name) && HoldsName(msg, HEADER, q.name) && |msg| == HEADER + NameSize(q.name) + 5
    ensures U16At(msg, 0) == id && U16At(msg, 2) == flags && U16At(msg, 4) == 1
    ensures U16At(msg, 6) == U16At(msg, 8) == U16At(msg, 10) == 0
    ensures U16At(msg, |msg| - 4) == q.qtype && U16At(msg, |msg| - 2) == q.cls
  {
    hide ReadName, ReadRecord, HoldsName, U16At;
    assert U16At(msg, 4) == |[q]| == 1;
    ReadOne(msg, HEADER);
    ReadHolds(msg, HEADER, HEADER);
  }

  // ---- Longer messages with the same bytes behind the header ----

  predicate Extends(msg: bytes, longer: bytes) {
    |msg| <= |longer| && forall i :: HEADER <= i < |msg| ==> longer[i] == msg[i]
  }

  lemma {:induction false} NameStays(msg: bytes, longer: bytes, pos: nat, limit: nat)
    requires Extends(msg, longer) && pos >= HEADER && ReadName(msg, pos, limit).Read?
    ensures ReadName(longer, pos, limit) == ReadName(msg, pos, limit)
    ensures pos < ReadName(msg, pos, limit).end <= |msg|
    decreases limit, |msg| - pos
  {
    assert longer[pos] == msg[pos];
    if msg[pos] == 0 {
    } else if msg[pos] < 64 {
      var next := pos + 1 + msg[pos] as int;
      assert ReadName(msg, pos, limit) == ReadLabel(msg, pos, limit);
      assert ReadName(longer, pos, limit) == ReadLabel(longer, pos, limit);
      NameStays(msg, longer, next, limit);
      assert longer[pos + 1..next] == msg[pos + 1..next];
    } else {
      assert U16At(longer, pos) == U16At(msg, pos);
      var target := U16At(msg, pos) - COMPRESSED;
      NameStays(msg, longer, target, target);
    }
  }

  lemma QuestionStays(msg: bytes, longer: bytes, pos: nat)
    requires Extends(msg, longer) && pos >= HEADER && ReadQuestion(msg, pos).Read?
    ensures ReadQuestion(longer, pos) == ReadQuestion(msg, pos) && ReadQuestion(msg, pos).end >= HEADER
  {
    NameStays(msg, longer, pos, pos);
  }

  lemma {:induction false} QuestionsStay(msg: bytes, longer: bytes, pos: nat, count: nat)
    requires Extends(msg, longer) && pos >= HEADER && ReadQuestions(msg, pos, count).Read?
    ensures ReadQuestions(longer, pos, count) == ReadQuestions(msg, pos, count)
    decreases count
  {
    hide ReadQuestion, Extends;
    if count == 0 {
    } else {
      QuestionStays(msg, longer, pos);
      QuestionsStay(msg, longer, ReadQuestion(msg, pos).end, count - 1);
    }
  }

  /** A record whose first eleven bytes are zero is one for the root name, of type 0. */
  lemma ZeroRecord(msg: bytes, at: nat)
    requires at + 11 <= |msg| && forall i :: at <= i < at + 11 ==> msg[i] == 0
    ensures ReadRecord(msg, at).Read? && ReadRecord(msg, at).value.rtype == 0
  {
    assert ReadName(msg, at, at) == Read(Root, at + 1);
  }
}
