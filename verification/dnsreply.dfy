/** The reply builder of the DNS responder, and what its replies say. */
module DnsReply {
  import opened Base
  import opened Dns
  import opened DnsMessage

  const TTL := 300

  /** `s` with `patch` written over it at `at`. */
  function Put(s: bytes, at: nat, patch: bytes): (r: bytes)
    requires at + |patch| <= |s|
    ensures |r| == |s|
    ensures forall i :: 0 <= i < |s| ==> r[i] == if at <= i < at + |patch| then patch[i - at] else s[i]
  {
    s[..at] + patch + s[at + |patch|..]
  }

  /** dns_answer_t: a pointer to the first question, A, the class, the TTL, four bytes of address. */
  function Answer(cls: bytes, ip: Quad): (r: bytes)
    requires |cls| == 2
    ensures |r| == ANSWER_SIZE
  {
    [0xC0, HEADER] + [0, TYPE_A] + cls + [0, 0, TTL / 0x100, TTL % 0x100] + [0, 4] + ip
  }

  /** The reply buffer with the request copied over zeros. */
  function Received(req: bytes): (r: bytes)
    requires |req| <= REPLY_SIZE
    ensures |r| == REPLY_SIZE
  {
    req + Zeros(REPLY_SIZE - |req|)
  }

  /** The opcode test: 0x7800 on the flags as a little-endian load gives them, so 0x78 on byte 3. */
  predicate Refuses(buffer: bytes)
    requires |buffer| == REPLY_SIZE
  {
    buffer[3] / 8 % 16 != 0
  }

  /** QR set, and as many answers announced as there are questions. */
  function Marked(buffer: bytes): (r: bytes)
    requires |buffer| == REPLY_SIZE
    ensures |r| == REPLY_SIZE
  {
    buffer[2 := if buffer[2] < 128 then buffer[2] + 128 else buffer[2]][6 := buffer[4]][7 := buffer[5]]
  }

  /** One turn of the question loop; neither pointer moves, so every turn does this. */
  function Turn(buffer: bytes, at: nat, ip: Quad): (r: Option<bytes>)
    requires |buffer| == REPLY_SIZE && at + ANSWER_SIZE <= REPLY_SIZE
    ensures r.Some? ==> |r.value| == REPLY_SIZE
  {
    var end := Walk(buffer, HEADER, NAME_SIZE);
    if end.None? then None
    else if U16At(buffer, end.value) != TYPE_A then Some(buffer)
    else Some(Put(buffer, at, Answer(Slice(buffer, end.value + 2, 2), ip)))
  }

  /** The loop: the buffer it leaves, and whether every name could be parsed. */
  function Turns(buffer: bytes, at: nat, ip: Quad, count: nat): (r: (bool, bytes))
    requires |buffer| == REPLY_SIZE && (count > 0 ==> at + ANSWER_SIZE <= REPLY_SIZE)
    ensures |r.1| == REPLY_SIZE
    decreases count
  {
    if count == 0 then (true, buffer) else
      var next := Turn(buffer, at, ip);
      if next.None? then (false, buffer) else Turns(next.value, at, ip, count - 1)
  }

  /** parse_dns_request: the returned length and the reply buffer. */
  function Response(req: bytes, before: bytes, ip: Quad): (r: (int, bytes))
    requires |before| == REPLY_SIZE
    ensures |r.1| == REPLY_SIZE
    ensures r.0 == -1 || r.0 == 0
            || (|req| <= REPLY_SIZE && r.0 == |req| + ANSWER_SIZE * U16At(Received(req), 4) <= REPLY_SIZE)
  {
    if |req| > REPLY_SIZE then (-1, before) else
      var buffer := Received(req);
      if Refuses(buffer) then (0, buffer) else
        var count := U16At(buffer, 4);
        var length := ANSWER_SIZE * count + |req|;
        if length > REPLY_SIZE then (-1, Marked(buffer)) else
          var done := Turns(Marked(buffer), |req|, ip, count);
          (if done.0 then length else -1, done.1)
  }

  // ---- The builder in place ----

  /** One field store. */
  method Store(reply: array<byte>, at: nat, field: bytes)
    requires at + |field| <= reply.Length
    modifies reply
    ensures reply[..] == Put(old(reply[..]), at, field)
  {
    forall i | 0 <= i < |field| {
      reply[at + i] := field[i];
    }
  }

  lemma PutPut(s: bytes, at: nat, a: bytes, b: bytes)
    requires at + |a| + |b| <= |s|
    ensures Put(Put(s, at, a), at + |a|, b) == Put(s, at, a + b)
  {
  }

  method WriteAnswer(reply: array<byte>, at: nat, cls: bytes, ip: Quad)
    requires |cls| == 2 && at + ANSWER_SIZE <= reply.Length
    modifies reply
    ensures reply[..] == Put(old(reply[..]), at, Answer(cls, ip))
  {
    hide Put;
    ghost var was := reply[..];
    Store(reply, at, [0xC0, HEADER]);
    Store(reply, at + 2, [0, TYPE_A]);
    PutPut(was, at, [0xC0, HEADER], [0, TYPE_A]);
    Store(reply, at + 4, cls);
    PutPut(was, at, [0xC0, HEADER] + [0, TYPE_A], cls);
    Store(reply, at + 6, [0, 0, TTL / 0x100, TTL % 0x100]);
    PutPut(was, at, [0xC0, HEADER] + [0, TYPE_A] + cls, [0, 0, TTL / 0x100, TTL % 0x100]);
    Store(reply, at + 10, [0, 4]);
    PutPut(was, at, [0xC0, HEADER] + [0, TYPE_A] + cls + [0, 0, TTL / 0x100, TTL % 0x100], [0, 4]);
    Store(reply, at + 12, ip);
    PutPut(was, at, [0xC0, HEADER] + [0, TYPE_A] + cls + [0, 0, TTL / 0x100, TTL % 0x100] + [0, 4], ip);
  }

  /** memset, then memcpy of the request. */
  method Receive(req: bytes, reply: array<byte>)
    requires |req| <= reply.Length == REPLY_SIZE
    modifies reply
    ensures reply[..] == Received(req)
  {
    forall i | 0 <= i < reply.Length {
      reply[i] := 0;
    }
    forall i | 0 <= i < |req| {
      reply[i] := req[i];
    }
  }

  lemma SliceTwo(s: bytes, at: nat)
    requires at + 2 <= |s|
    ensures Slice(s, at, 2) == [s[at], s[at + 1]]
  {
  }

  /** The loop over the questions. */
  method AnswerQuestions(reply: array<byte>, at: nat, count: nat, ip: Quad) returns (ok: bool)
    requires reply.Length == REPLY_SIZE && (count > 0 ==> at + ANSWER_SIZE <= REPLY_SIZE)
    modifies reply
    ensures (ok, reply[..]) == Turns(old(reply[..]), at, ip, count)
  {
    hide Walk, Put, Answer, Slice;
    var name := new byte[NAME_SIZE];
    ghost var all := Turns(reply[..], at, ip, count);
    for i := 0 to count
      invariant Turns(reply[..], at, ip, count - i) == all
    {
      ghost var was := reply[..];
      var end := ParseName(reply, HEADER, name);
      if end.None? {
        return false;
      }
      var e := end.value;
      if (reply[e] as int) * 0x100 + reply[e + 1] as int == TYPE_A {
        SliceTwo(was, e + 2);
        WriteAnswer(reply, at, [reply[e + 2], reply[e + 3]], ip);
      }
      assert Turn(was, at, ip) == Some(reply[..]);
    }
    ok := true;
  }

  /** Builds the reply to `req`; every read and write falls inside the two buffers. */
  method ParseRequest(req: bytes, reply: array<byte>, ip: Quad) returns (length: int)
    requires reply.Length == REPLY_SIZE
    modifies reply
    ensures (length, reply[..]) == Response(req, old(reply[..]), ip)
  {
    hide Turns, Received;
    if |req| > reply.Length {
      return -1;
    }
    Receive(req, reply);
    ghost var buffer := reply[..];
    if reply[3] / 8 % 16 != 0 {
      return 0;
    }
    if reply[2] < 128 {
      reply[2] := reply[2] + 128;
    }
    var count := (reply[4] as int) * 0x100 + reply[5] as int;
    reply[6], reply[7] := reply[4], reply[5];
    assert reply[..] == Marked(buffer);
    length := ANSWER_SIZE * count + |req|;
    if length > reply.Length {
      return -1;
    }
    var ok := AnswerQuestions(reply, |req|, count, ip);
    if !ok {
      return -1;
    }
  }

  lemma {:induction false} TurnsTouchOneSlot(buffer: bytes, at: nat, ip: Quad, count: nat)
    requires |buffer| == REPLY_SIZE && (count > 0 ==> at + ANSWER_SIZE <= REPLY_SIZE)
    ensures forall i :: 0 <= i < REPLY_SIZE && !(at <= i < at + ANSWER_SIZE) ==>
              Turns(buffer, at, ip, count).1[i] == buffer[i]
    decreases count
  {
    if count > 0 && Turn(buffer, at, ip).Some? {
      TurnsTouchOneSlot(Turn(buffer, at, ip).value, at, ip, count - 1);
    }
  }

  /**
   However many questions are announced, at most the sixteen bytes behind the
   request are filled in: the rest is the request, but for its header, and zeros.
   */
  lemma ReplyTouchesOneSlot(req: bytes, before: bytes, ip: Quad)
    requires |before| == REPLY_SIZE && |req| <= REPLY_SIZE
    ensures forall i :: 0 <= i < REPLY_SIZE && i != 2 && i != 6 && i != 7
                        && !(|req| <= i < |req| + ANSWER_SIZE) ==>
              Response(req, before, ip).1[i] == if i < |req| then req[i] else 0
  {
    hide Turns;
    var buffer := Marked(Received(req));
    var count := U16At(Received(req), 4);
    if ANSWER_SIZE * count + |req| <= REPLY_SIZE {
      TurnsTouchOneSlot(buffer, |req|, ip, count);
    }
  }

  // ---- What the replies say ----

  function U16(n: u16): (r: bytes)
    ensures |r| == 2 && U16At(r, 0) == n
  {
    [n / 0x100, n % 0x100]
  }

  /** A query of one question (section 4.1). */
  function EncodeQuery(id: u16, flags: u16, n: Name, qtype: u16, cls: u16): bytes
    requires Proper(n)
  {
    U16(id) + U16(flags) + [0, 1, 0, 0, 0, 0, 0, 0] + EncodeName(n) + (U16(qtype) + U16(cls))
  }

  lemma U16Inside(s: bytes, at: nat, field: bytes)
    requires |field| == 2 && at + 2 <= |s| && s[at..at + 2] == field
    ensures U16At(s, at) == U16At(field, 0)
  {
    assert s[at] == s[at..at + 2][0] && s[at + 1] == s[at..at + 2][1];
  }

  lemma QueryBytes(id: u16, flags: u16, n: Name, qtype: u16, cls: u16)
    requires Proper(n)
    ensures var req := EncodeQuery(id, flags, n, qtype, cls);
            && |req| == HEADER + NameSize(n) + 5
            && U16At(req, 0) == id && U16At(req, 2) == flags && U16At(req, 4) == 1
            && U16At(req, 6) == U16At(req, 8) == U16At(req, 10) == 0
            && U16At(req, |req| - 4) == qtype && U16At(req, |req| - 2) == cls
  {
    hide EncodeName, U16;
    var req := EncodeQuery(id, flags, n, qtype, cls);
    assert forall i :: 4 <= i < HEADER ==> req[i] == [0, 1, 0, 0, 0, 0, 0, 0][i - 4];
    U16Inside(req, 0, U16(id));
    U16Inside(req, 2, U16(flags));
    U16Inside(req, |req| - 4, U16(qtype));
    U16Inside(req, |req| - 2, U16(cls));
  }

  lemma EncodedQueryAsks(id: u16, flags: u16, n: Name, qtype: u16, cls: u16)
    requires Proper(n)
    ensures Asks(EncodeQuery(id, flags, n, qtype, cls), id, flags, Question(n, qtype, cls))
  {
    hide EncodeName, HoldsName, ReadName, U16At, U16;
    var req := EncodeQuery(id, flags, n, qtype, cls);
    QueryBytes(id, flags, n, qtype, cls);
    EncodedHolds(U16(id) + U16(flags) + [0, 1, 0, 0, 0, 0, 0, 0], n, U16(qtype) + U16(cls));
    HeldReads(req, HEADER, n, HEADER);
    ReadOne(req, HEADER);
  }

  function Qr(flags: nat): nat {
    if flags < 0x8000 then flags + 0x8000 else flags
  }

  /** The id, the flags with QR set, the question, and one address for its name. */
  predicate Serves(reply: bytes, id: nat, flags: nat, q: Question, ip: Quad) {
    var m := ReadMessage(reply);
    && m.Some? && m.value.id == id
    && m.value.flags >= 0x8000 && m.value.flags % 0x8000 == flags % 0x8000
    && m.value.questions == [q]
    && m.value.answers == [Record(q.name, 1, q.cls, 300, ip)]
    && m.value.authority == [] && m.value.additional == []
  }

  /** The bytes `msg` has from `req`, with the header as the responder marks it. */
  predicate Echoes(req: bytes, msg: bytes) {
    && HEADER <= |req| <= |msg|
    && (forall i :: 0 <= i < |req| && i != 2 && i != 6 && i != 7 ==> msg[i] == req[i])
    && msg[2] == (if req[2] < 128 then req[2] + 128 else req[2]) && msg[6] == req[4] && msg[7] == req[5]
  }

  lemma MarkedEchoes(req: bytes)
    requires HEADER <= |req| <= REPLY_SIZE
    ensures Echoes(req, Marked(Received(req)))
    ensures forall i :: |req| <= i < REPLY_SIZE ==> Marked(Received(req))[i] == 0
  {
  }

  /** An echoed query starts with the same question. */
  lemma EchoAsks(req: bytes, msg: bytes, id: nat, flags: nat, q: Question)
    requires Asks(req, id, flags, q) && Echoes(req, msg)
    ensures Proper(q.name) && HoldsName(msg, HEADER, q.name) && |req| == HEADER + NameSize(q.name) + 5
    ensures U16At(msg, 0) == id && U16At(msg, 2) == Qr(flags) && U16At(msg, 4) == U16At(msg, 6) == 1
    ensures U16At(msg, 8) == U16At(msg, 10) == 0
    ensures ReadQuestions(msg, HEADER, 1) == Read([q], |req|)
    ensures U16At(msg, |req| - 4) == q.qtype && U16At(msg, |req| - 2) == q.cls
  {
    hide ReadMessage, ReadName, HoldsName;
    AskingMeans(req, id, flags, q);
    HoldsSame(req, msg, HEADER, q.name);
    HeldReads(msg, HEADER, q.name, HEADER);
    ReadOne(msg, HEADER);
  }

  lemma AnswerBytes(msg: bytes, at: nat, cls: bytes, ip: Quad)
    requires |cls| == 2 && |msg| == at + ANSWER_SIZE && Slice(msg, at, ANSWER_SIZE) == Answer(cls, ip)
    ensures msg[at] == 0xC0 && msg[at + 1] == HEADER && Slice(msg, at + 12, 4) == ip
    ensures U16At(msg, at + 2) == TYPE_A && U16At(msg, at + 4) == U16At(cls, 0)
    ensures U16At(msg, at + 6) == 0 && U16At(msg, at + 8) == TTL && U16At(msg, at + 10) == 4
  {
    forall i | 0 <= i < ANSWER_SIZE ensures msg[at + i] == Answer(cls, ip)[i] {
      assert Slice(msg, at, ANSWER_SIZE)[i] == msg[at + i];
    }
  }

  /** The pointer leads back to the question's name. */
  lemma AnswerReads(msg: bytes, at: nat, q: Question, ip: Quad, cls: bytes)
    requires |cls| == 2 && U16At(cls, 0) == q.cls && at > HEADER
    requires |msg| == at + ANSWER_SIZE && Slice(msg, at, ANSWER_SIZE) == Answer(cls, ip)
    requires HoldsName(msg, HEADER, q.name) && Proper(q.name)
    ensures ReadRecord(msg, at) == Read(Record(q.name, TYPE_A, q.cls, TTL, ip), |msg|)
  {
    hide HoldsName, Answer, Slice;
    AnswerBytes(msg, at, cls, ip);
    HeldReads(msg, HEADER, q.name, HEADER);
    assert ReadName(msg, at, at) == Read(q.name, at + 2);
  }

  lemma ReplyReads(req: bytes, msg: bytes, id: nat, flags: nat, q: Question, ip: Quad, cls: bytes)
    requires Asks(req, id, flags, q) && Echoes(req, msg)
    requires |cls| == 2 && U16At(cls, 0) == q.cls
    requires |msg| == |req| + ANSWER_SIZE && Slice(msg, |req|, ANSWER_SIZE) == Answer(cls, ip)
    ensures Serves(msg, id, flags, q, ip)
  {
    hide ReadQuestions, HoldsName, Asks;
    EchoAsks(req, msg, id, flags, q);
    AnswerReads(msg, |req|, q, ip, cls);
    ReadOne(msg, |req|);
  }

  lemma RootHeld(raw: bytes, pos: nat)
    ensures HoldsName(raw, pos, Root) <==> pos < |raw| && raw[pos] == 0
  {
  }

  /** After the root name the parser is one byte too far: it takes the low byte of the type for the high one. */
  lemma RootType(buffer: bytes, qtype: nat)
    requires |buffer| == REPLY_SIZE && buffer[HEADER] == 0 && U16At(buffer, HEADER + 1) == qtype
    requires 0 < qtype < 0x100
    ensures Walk(buffer, HEADER, NAME_SIZE) == Some(HEADER + 2) && U16At(buffer, HEADER + 2) != TYPE_A
  {
  }

  /** The one turn of a query of one question. */
  lemma OneTurn(req: bytes, id: nat, flags: nat, q: Question, ip: Quad)
    requires Asks(req, id, flags, q) && |req| + ANSWER_SIZE <= REPLY_SIZE
    requires q.name.Sub? || 0 < q.qtype < 0x100
    ensures var buffer := Marked(Received(req));
            Turns(buffer, |req|, ip, 1) ==
            if q.name.Sub? && NameSize(q.name) > NAME_SIZE then (false, buffer)
            else if q.name.Root? || q.qtype != TYPE_A then (true, buffer)
            else (true, Put(buffer, |req|, Answer(Slice(buffer, |req| - 2, 2), ip)))
  {
    hide ReadMessage, Put, Answer, Slice, HoldsName, Copied;
    var buffer := Marked(Received(req));
    AskingMeans(req, id, flags, q);
    MarkedEchoes(req);
    EchoAsks(req, buffer, id, flags, q);
    if q.name.Sub? {
      WalkReadsName(buffer, HEADER, q.name, NAME_SIZE);
    } else {
      RootHeld(buffer, HEADER);
      RootType(buffer, q.qtype);
    }
  }

  lemma FlagBits(high: byte, low: byte)
    ensures ((high as int) * 0x100 + low as int) / 8 % 16 == low / 8 % 16
  {
    assert ((high as int) * 0x100 + low as int) / 8 == (high as int) * 32 + low as int / 8;
  }

  lemma HeaderReceived(req: bytes)
    requires HEADER <= |req| <= REPLY_SIZE
    ensures U16At(Received(req), 4) == U16At(req, 4)
    ensures Refuses(Received(req)) <==> U16At(req, 2) / 8 % 16 != 0
    ensures Received(req)[..0] == []
  {
    assert forall i :: 0 <= i < HEADER ==> Received(req)[i] == req[i];
    FlagBits(req[2], req[3]);
  }

  lemma ReplyBytes(req: bytes, marked: bytes, cls: bytes, ip: Quad, id: nat, flags: nat, q: Question)
    requires Asks(req, id, flags, q) && Echoes(req, marked) && |marked| == REPLY_SIZE
    requires |req| + ANSWER_SIZE <= REPLY_SIZE && cls == Slice(marked, |req| - 2, 2)
    ensures Serves(Put(marked, |req|, Answer(cls, ip))[..|req| + ANSWER_SIZE], id, flags, q, ip)
  {
    hide ReadMessage, HoldsName, Answer, Serves;
    var msg := Put(marked, |req|, Answer(cls, ip))[..|req| + ANSWER_SIZE];
    EchoAsks(req, marked, id, flags, q);
    assert Slice(msg, |req|, ANSWER_SIZE) == Answer(cls, ip);
    ReplyReads(req, msg, id, flags, q, ip, cls);
  }

  lemma Answered(req: bytes, before: bytes, ip: Quad, id: nat, flags: nat, q: Question)
    requires Asks(req, id, flags, q) && q.qtype == TYPE_A && |before| == REPLY_SIZE
    requires flags / 8 % 16 == 0 && q.name.Sub? && NameSize(q.name) <= NAME_SIZE
    ensures var (length, buffer) := Response(req, before, ip);
            length == |req| + ANSWER_SIZE <= REPLY_SIZE && Serves(buffer[..length], id, flags, q, ip)
  {
    hide ReadMessage, HoldsName, Turns, Put, Answer, Slice, Received, Serves, Refuses, Marked, U16At;
    AskingMeans(req, id, flags, q);
    HeaderReceived(req);
    OneTurn(req, id, flags, q, ip);
    MarkedEchoes(req);
    var marked := Marked(Received(req));
    var cls := Slice(marked, |req| - 2, 2);
    ReplyBytes(req, marked, cls, ip, id, flags, q);
  }

  /** A root question leaves the answer slot zero, which reads as a record of type 0. */
  lemma ZerosAnswerNothing(msg: bytes, id: nat, flags: nat, q: Question, ip: Quad)
    requires |msg| >= ANSWER_SIZE && U16At(msg, 4) == U16At(msg, 6) == 1
    requires ReadQuestions(msg, HEADER, 1) == Read([q], |msg| - ANSWER_SIZE)
    requires forall i :: |msg| - ANSWER_SIZE <= i < |msg| ==> msg[i] == 0
    ensures !Serves(msg, id, flags, q, ip)
  {
    hide ReadQuestions;
    var at: nat := |msg| - ANSWER_SIZE;
    ReadOne(msg, at);
    assert ReadName(msg, at, at) == Read(Root, at + 1);
    if ReadRecord(msg, at).Read? {
      assert ReadRecord(msg, at).value.rtype == 0;
    }
  }

  lemma NothingServesNothing(id: nat, flags: nat, q: Question, ip: Quad)
    ensures !Serves([], id, flags, q, ip)
  {
  }

  lemma RootNotAnswered(req: bytes, id: nat, flags: nat, q: Question, ip: Quad)
    requires Asks(req, id, flags, q) && q.name.Root? && |req| + ANSWER_SIZE <= REPLY_SIZE
    ensures !Serves(Marked(Received(req))[..|req| + ANSWER_SIZE], id, flags, q, ip)
  {
    hide ReadMessage, ReadName, ReadQuestions, ReadRecord, HoldsName, Received, Serves;
    AskingMeans(req, id, flags, q);
    MarkedEchoes(req);
    var msg := Marked(Received(req))[..|req| + ANSWER_SIZE];
    EchoAsks(req, msg, id, flags, q);
    ZerosAnswerNothing(msg, id, flags, q, ip);
  }

  lemma NotAnswered(req: bytes, before: bytes, ip: Quad, id: nat, flags: nat, q: Question)
    requires Asks(req, id, flags, q) && q.qtype == TYPE_A && |before| == REPLY_SIZE
    requires flags / 8 % 16 != 0 || q.name.Root? || NameSize(q.name) > NAME_SIZE
    ensures var (length, buffer) := Response(req, before, ip);
            length == -1 || (0 <= length <= REPLY_SIZE && !Serves(buffer[..length], id, flags, q, ip))
  {
    hide ReadMessage, HoldsName, Turns, Put, Answer, Slice, Received, Serves, Refuses, Marked, U16At;
    AskingMeans(req, id, flags, q);
    NothingServesNothing(id, flags, q, ip);
    if |req| <= REPLY_SIZE {
      HeaderReceived(req);
      if flags / 8 % 16 != 0 {
        assert Response(req, before, ip).0 == 0;
      } else if |req| + ANSWER_SIZE <= REPLY_SIZE {
        OneTurn(req, id, flags, q, ip);
        if q.name.Root? {
          RootNotAnswered(req, id, flags, q, ip);
        }
      }
    }
  }

  /**
   Every query of one type-A question and nothing else is answered with the same
   id and question, QR set, and the address for exactly that name, if and only if
   the name is not the root, it fits the name buffer, and bits 3 to 6 of the flags
   are clear. (Those are the AD, CD and Z bits and a bit of the response code:
   the opcode is bits 11 to 14.)
   */
  lemma QueryAnswered(req: bytes, before: bytes, ip: Quad, id: nat, flags: nat, q: Question)
    requires Asks(req, id, flags, q) && q.qtype == 1 && |before| == 256
    ensures var (length, buffer) := Response(req, before, ip);
            0 <= length <= 256 && Serves(buffer[..length], id, flags, q, ip)
            <==> flags / 8 % 16 == 0 && q.name.Sub? && NameSize(q.name) <= 128
  {
    hide Asks, Response, Serves, NameSize;
    if flags / 8 % 16 == 0 && q.name.Sub? && NameSize(q.name) <= NAME_SIZE {
      Answered(req, before, ip, id, flags, q);
    } else {
      NotAnswered(req, before, ip, id, flags, q);
    }
  }

  lemma ZeroRecordEnds(msg: bytes, at: nat)
    requires at + ANSWER_SIZE <= |msg| && forall i :: at <= i < at + ANSWER_SIZE ==> msg[i] == 0
    ensures ReadRecord(msg, at).Read? && ReadRecord(msg, at).end == at + 11
  {
    assert ReadName(msg, at, at) == Read(Root, at + 1);
  }

  lemma NoAnswerReads(req: bytes, id: nat, flags: nat, q: Question)
    requires Asks(req, id, flags, q) && |req| + ANSWER_SIZE <= REPLY_SIZE
    ensures ReadMessage(Marked(Received(req))[..|req| + ANSWER_SIZE]).None?
  {
    hide ReadName, ReadQuestions, ReadRecord, HoldsName, Received;
    AskingMeans(req, id, flags, q);
    MarkedEchoes(req);
    var msg := Marked(Received(req))[..|req| + ANSWER_SIZE];
    EchoAsks(req, msg, id, flags, q);
    ReadOne(msg, |req|);
    ZeroRecordEnds(msg, |req|);
  }

  /**
   What becomes of a query of one question and nothing else, of whatever type (for
   the root name, of a type from 1 to 255). A name that does not fit gets -1; a
   question of another type, or for the root, gets sixteen zero bytes as its
   answer, which do not read as a record.
   */
  lemma QueryOutcome(req: bytes, before: bytes, ip: Quad, id: nat, flags: nat, q: Question)
    requires Asks(req, id, flags, q) && |before| == 256
    requires q.name.Sub? || 0 < q.qtype < 256
    ensures var (length, buffer) := Response(req, before, ip);
            if |req| > 256 then length == -1 && buffer == before
            else if flags / 8 % 16 != 0 then length == 0
            else if |req| + 16 > 256 || NameSize(q.name) > 128 then length == -1
            else
              && length == |req| + 16 <= 256
              && (q.name.Sub? && q.qtype == 1 ==> Serves(buffer[..length], id, flags, q, ip))
              && (q.name.Root? || q.qtype != 1 ==>
                    && (forall i :: |req| <= i < 256 ==> buffer[i] == 0)
                    && ReadMessage(buffer[..length]).None?)
  {
    hide ReadMessage, HoldsName, Turns, Put, Answer, Slice, Received, Serves, Refuses, Marked, U16At;
    AskingMeans(req, id, flags, q);
    if |req| <= 256 {
      HeaderReceived(req);
      if flags / 8 % 16 == 0 && |req| + 16 <= 256 {
        OneTurn(req, id, flags, q, ip);
        MarkedEchoes(req);
        if NameSize(q.name) <= 128 {
          if q.name.Sub? && q.qtype == 1 {
            Answered(req, before, ip, id, flags, q);
          } else {
            NoAnswerReads(req, id, flags, q);
          }
        }
      }
    }
  }

  /** The byte of a request, or the zero behind its end. */
  function ByteAt(req: bytes, i: nat): byte {
    if i < |req| then req[i] else 0
  }

  lemma NoTurns(buffer: bytes, at: nat, ip: Quad)
    requires |buffer| == REPLY_SIZE
    ensures Turns(buffer, at, ip, 0) == (true, buffer)
  {
  }

  /** What is returned for any request whatever, as far as names do not matter. */
  lemma ReplyLength(req: bytes, before: bytes, ip: Quad)
    requires |before| == 256
    ensures var (length, buffer) := Response(req, before, ip);
            var count := ByteAt(req, 4) as int * 256 + ByteAt(req, 5) as int;
            if |req| > 256 then length == -1 && buffer == before
            else if ByteAt(req, 3) / 8 % 16 != 0 then length == 0
            else if |req| + 16 * count > 256 then length == -1
            else if count == 0 then length == |req|
            else length == -1 || length == |req| + 16 * count
  {
    hide Turns, Marked;
    if |req| <= 256 {
      assert forall i :: 0 <= i < 6 ==> Received(req)[i] == ByteAt(req, i);
      NoTurns(Marked(Received(req)), |req|, ip);
    }
  }

  // ---- Queries with several questions ----

  /** The one slot is untouched, or holds an answer. */
  ghost predicate SlotFilled(buffer: bytes, at: nat, ip: Quad)
    requires at + ANSWER_SIZE <= |buffer|
  {
    || (forall i :: at <= i < at + ANSWER_SIZE ==> buffer[i] == 0)
    || (exists cls: bytes :: |cls| == 2 && Slice(buffer, at, ANSWER_SIZE) == Answer(cls, ip))
  }

  lemma PutFills(buffer: bytes, at: nat, ip: Quad, cls: bytes)
    requires |cls| == 2 && at + ANSWER_SIZE <= |buffer|
    ensures SlotFilled(Put(buffer, at, Answer(cls, ip)), at, ip)
  {
    hide Answer;
    assert Slice(Put(buffer, at, Answer(cls, ip)), at, ANSWER_SIZE) == Answer(cls, ip);
  }

  lemma {:induction false} TurnsFillSlot(buffer: bytes, at: nat, ip: Quad, count: nat)
    requires |buffer| == REPLY_SIZE && at + ANSWER_SIZE <= REPLY_SIZE && SlotFilled(buffer, at, ip)
    ensures SlotFilled(Turns(buffer, at, ip, count).1, at, ip)
    decreases count
  {
    hide SlotFilled, Put, Answer, Slice, Walk;
    if count == 0 {
    } else if Turn(buffer, at, ip).Some? {
      var next := Turn(buffer, at, ip).value;
      var end := Walk(buffer, HEADER, NAME_SIZE).value;
      PutFills(buffer, at, ip, Slice(buffer, end + 2, 2));
      TurnsFillSlot(next, at, ip, count - 1);
    }
  }

  predicate AllTypeA(records: seq<Record>) {
    forall i :: 0 <= i < |records| ==> records[i].rtype == TYPE_A
  }

  lemma FirstRecords(msg: bytes, at: nat, count: nat)
    requires count >= 2 && ReadRecords(msg, at, count).Read?
    ensures var all := ReadRecords(msg, at, count).value;
            var first := ReadRecord(msg, at);
            && first.Read? && all[0] == first.value
            && ReadRecord(msg, first.end).Read? && all[1] == ReadRecord(msg, first.end).value
  {
    hide ReadRecord;
    var first := ReadRecord(msg, at);
    assert ReadRecords(msg, first.end, count - 1).Read?;
  }

  lemma AnswerEnds(msg: bytes, at: nat, cls: bytes, ip: Quad)
    requires |cls| == 2 && at + ANSWER_SIZE <= |msg| && Slice(msg, at, ANSWER_SIZE) == Answer(cls, ip)
    ensures ReadRecord(msg, at).Read? ==> ReadRecord(msg, at).end == at + ANSWER_SIZE
  {
    var slot := Answer(cls, ip);
    assert forall i :: 0 <= i < ANSWER_SIZE ==> msg[at + i] == Slice(msg, at, ANSWER_SIZE)[i];
    assert msg[at] == slot[0] == 0xC0 && msg[at + 10] == slot[10] == 0 && msg[at + 11] == slot[11] == 4;
    var r := ReadName(msg, at, at);
    assert r.Read? ==> r.end == at + 2;
  }

  /** One filled slot and zeros behind it never read as two records of type A. */
  lemma OneSlotOneAnswer(msg: bytes, at: nat, ip: Quad, count: nat)
    requires count >= 2 && at >= HEADER && |msg| == at + ANSWER_SIZE * count
    requires SlotFilled(msg, at, ip) && forall i :: at + ANSWER_SIZE <= i < |msg| ==> msg[i] == 0
    requires ReadRecords(msg, at, count).Read?
    ensures !AllTypeA(ReadRecords(msg, at, count).value)
  {
    hide ReadRecord, Slice, Answer;
    FirstRecords(msg, at, count);
    if forall i :: at <= i < at + ANSWER_SIZE ==> msg[i] == 0 {
      ZeroRecord(msg, at);
    } else {
      var cls: bytes :| |cls| == 2 && Slice(msg, at, ANSWER_SIZE) == Answer(cls, ip);
      AnswerEnds(msg, at, cls, ip);
      ZeroRecord(msg, at + ANSWER_SIZE);
    }
  }

  lemma ManyAsked(req: bytes, id: nat, flags: nat, qs: seq<Question>)
    requires ReadMessage(req) == Some(Message(id, flags, qs, [], [], []))
    ensures HEADER <= |req| && U16At(req, 4) == |qs| && U16At(req, 6) == 0
    ensures ReadQuestions(req, HEADER, |qs|) == Read(qs, |req|)
  {
    hide ReadQuestion, ReadRecord, U16At;
    assert |ReadQuestions(req, HEADER, U16At(req, 4)).value| == U16At(req, 4);
    var end := ReadQuestions(req, HEADER, U16At(req, 4)).end;
    assert ReadRecords(req, end, 0) == Read([], end);
  }

  lemma ClearSlot(buffer: bytes, at: nat, ip: Quad)
    requires at + ANSWER_SIZE <= |buffer| && forall i :: at <= i < |buffer| ==> buffer[i] == 0
    ensures SlotFilled(buffer, at, ip)
  {
  }

  lemma SameSlot(buffer: bytes, length: nat, at: nat, ip: Quad)
    requires at + ANSWER_SIZE <= length <= |buffer| && SlotFilled(buffer, at, ip)
    ensures SlotFilled(buffer[..length], at, ip)
  {
    hide Answer;
    assert Slice(buffer[..length], at, ANSWER_SIZE) == Slice(buffer, at, ANSWER_SIZE);
  }

  lemma AnswersRead(msg: bytes)
    requires ReadMessage(msg).Some?
    ensures |msg| >= HEADER && ReadQuestions(msg, HEADER, U16At(msg, 4)).Read?
    ensures var answers := ReadMessage(msg).value.answers;
            var r := ReadRecords(msg, ReadQuestions(msg, HEADER, U16At(msg, 4)).end, |answers|);
            r.Read? && r.value == answers
  {
    hide ReadQuestion, ReadRecord, U16At;
  }

  lemma CountKept(req: bytes, msg: bytes)
    requires HEADER <= |req| <= |msg| && msg[4] == req[4] && msg[5] == req[5]
    ensures U16At(msg, 4) == U16At(req, 4)
  {
  }

  lemma ManyReply(req: bytes, before: bytes, ip: Quad, id: nat, flags: nat, qs: seq<Question>)
    requires ReadMessage(req) == Some(Message(id, flags, qs, [], [], [])) && |qs| >= 2 && |before| == REPLY_SIZE
    requires |req| + ANSWER_SIZE * |qs| <= REPLY_SIZE && !Refuses(Received(req))
    requires Response(req, before, ip).0 != -1
    ensures var (length, buffer) := Response(req, before, ip);
            && 0 <= length <= REPLY_SIZE
            && var m := ReadMessage(buffer[..length]);
               m.Some? ==> !(|m.value.answers| == |qs| && AllTypeA(m.value.answers))
  {
    hide ReadName, ReadRecord, ReadRecords, Turns, Put, Answer, Slice, Received, Refuses, U16At, SlotFilled, Marked;
    var n := |qs|;
    ManyAsked(req, id, flags, qs);
    HeaderReceived(req);
    var (length, buffer) := Response(req, before, ip);
    assert length == |req| + ANSWER_SIZE * n;
    assert buffer == Turns(Marked(Received(req)), |req|, ip, n).1;
    MarkedEchoes(req);
    ClearSlot(Marked(Received(req)), |req|, ip);
    TurnsFillSlot(Marked(Received(req)), |req|, ip, n);
    ReplyTouchesOneSlot(req, before, ip);
    SameSlot(buffer, length, |req|, ip);
    var msg := buffer[..length];
    QuestionsStay(req, msg, HEADER, n);
    if ReadMessage(msg).Some? {
      CountKept(req, msg);
      AnswersRead(msg);
      if |ReadMessage(msg).value.answers| == n {
        OneSlotOneAnswer(msg, |req|, ip, n);
      }
    }
  }

  /**
   A query of several questions and nothing else, whatever they ask for, is never
   answered with a record of type A for each of them.
   */
  lemma ManyQuestionsNotAnswered(req: bytes, before: bytes, ip: Quad, id: nat, flags: nat, qs: seq<Question>)
    requires ReadMessage(req) == Some(Message(id, flags, qs, [], [], [])) && |qs| >= 2 && |before| == REPLY_SIZE
    ensures var (length, buffer) := Response(req, before, ip);
            length == -1 ||
              (0 <= length <= REPLY_SIZE &&
               var m := ReadMessage(buffer[..length]);
               m.Some? ==> !(|m.value.answers| == |qs| && AllTypeA(m.value.answers)))
  {
    hide ReadName, ReadRecord, ReadRecords, Turns, Put, Answer, Slice, Received, Refuses, Marked, U16At, SlotFilled;
    var n := |qs|;
    ManyAsked(req, id, flags, qs);
    if |req| <= REPLY_SIZE {
      HeaderReceived(req);
      if Refuses(Received(req)) {
        assert Response(req, before, ip).0 == 0;
      } else if |req| + ANSWER_SIZE * n <= REPLY_SIZE && Response(req, before, ip).0 != -1 {
        ManyReply(req, before, ip, id, flags, qs);
      }
    }
  }
}
