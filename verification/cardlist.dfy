/** The access list the two files stand for, and what each call means for it. */
module CardList {
  import opened Base
  import opened Codec
  import opened Protocol

  datatype Db = Db(max: u16, checksum: u32, cards: seq<Card>)

  const EMPTY := Db(MAX_CARDS, 0, [])

  predicate Fits(db: Db) {
    |db.cards| <= db.max
  }

  predicate Has(db: Db, id: u32) {
    Find(db.cards, id) < |db.cards|
  }

  function Apply(db: Db, op: Op): (db': Db)
    ensures Fits(db) ==> Fits(db')
  {
    match op
    case Add(id, _, _, _) =>
      if Has(db, id) || |db.cards| >= db.max then db else db.(cards := db.cards + [NewCard(op)])
    case Remove(id) =>
      if id == ADMIN_CARD_ID || !Has(db, id) then db
      else db.(cards := Without(db.cards, Find(db.cards, id)))
    case Save => if |db.cards| <= 0xFFFF then db.(checksum := Checksum(|db.cards|)) else db
    case Format => EMPTY
    case _ => db
  }

  function Answer(db: Db, op: Op): Reply {
    match op
    case Add(id, _, _, _) =>
      Code(if Has(db, id) then InvalidState else if |db.cards| < db.max then Ok else NoMem)
    case Remove(id) =>
      Code(if id == ADMIN_CARD_ID then NotSupported else if Has(db, id) then Ok else NotFound)
    case Check(id) =>
      Code(if !Has(db, id) then NotFound
           else if db.cards[Find(db.cards, id)].active != 0 then Ok
           else InvalidState)
    case Count => Counted(if |db.cards| <= 0xFFFF then |db.cards| else 0)
    case List(room) => if room < |db.cards| then Listed(NoMem, []) else Listed(Ok, db.cards)
    case Dump => Listed(Ok, db.cards)
    case Validate => Verdict(true)
    case _ => Code(Ok)
  }

  lemma {:induction false} HasIffIn(db: Db, id: u32)
    ensures Has(db, id) <==> exists c :: c in db.cards && c.id == id
  {
    if Has(db, id) {
      assert db.cards[Find(db.cards, id)] in db.cards;
    }
  }

  // ---- What holds of every database grown from an empty one ----

  ghost predicate Distinct(cards: seq<Card>) {
    forall i, j :: 0 <= i < j < |cards| ==> cards[i].id != cards[j].id
  }

  predicate Sound(c: Card) {
    c.active == 1 && Terminated(c)
  }

  ghost predicate Good(db: Db) {
    && db.max == 200
    && |db.cards| <= 200
    && Distinct(db.cards)
    && forall c :: c in db.cards ==> Sound(c)
  }

  lemma NewCardSound(op: Op)
    requires op.Add?
    ensures Sound(NewCard(op))
  {
  }

  lemma AddKeepsGood(db: Db, op: Op)
    requires Good(db) && op.Add? && !Has(db, op.id) && |db.cards| < db.max
    ensures Good(Apply(db, op))
  {
    hide NameField, UpToNul;
    var c, cards := NewCard(op), Apply(db, op).cards;
    assert Sound(c) by { NewCardSound(op); }
    assert forall i :: 0 <= i < |db.cards| ==> cards[i] == db.cards[i] && cards[i].id != op.id;
    assert forall x :: x in cards ==> x in db.cards || x == c;
  }

  lemma RemoveKeepsGood(db: Db, i: nat)
    requires Good(db) && i < |db.cards|
    ensures Good(db.(cards := Without(db.cards, i)))
  {
    var cards := Without(db.cards, i);
    assert forall k :: 0 <= k < |cards| ==> cards[k] == db.cards[if k < i then k else k + 1];
    assert forall x :: x in cards ==> x in db.cards;
  }

  lemma GoodHeader(db: Db, op: Op)
    requires Good(db) && (op.Save? || op.Format?)
    ensures Good(Apply(db, op))
  {
  }

  /** Every call keeps ids distinct, the capacity, and every record active and named. */
  lemma ApplyKeepsGood(db: Db, op: Op)
    requires Good(db)
    ensures Good(Apply(db, op))
  {
    hide Good;
    if Apply(db, op) != db {
      match op
      case Add(_, _, _, _) => AddKeepsGood(db, op);
      case Remove(id) => RemoveKeepsGood(db, Find(db.cards, id));
      case _ => GoodHeader(db, op);
    }
  }

  /** So a check never meets an inactive card. */
  lemma GoodAnswers(db: Db, op: Op)
    requires Good(db)
    ensures op.Check? ==> Answer(db, op) == Code(if Has(db, op.id) then Ok else NotFound)
  {
    if op.Check? && Has(db, op.id) {
      assert db.cards[Find(db.cards, op.id)] in db.cards;
    }
  }

  // ---- How calls bear on one another ----

  /** The card a lookup by id meets. */
  function Lookup(cards: seq<Card>, id: u32): Option<Card> {
    var i := Find(cards, id);
    if i == |cards| then None else Some(cards[i])
  }

  lemma {:induction false} FindAppend(cards: seq<Card>, c: Card, id: u32)
    ensures var i := Find(cards, id);
            Find(cards + [c], id) == if i < |cards| then i else if c.id == id then |cards| else |cards| + 1
  {
    if cards == [] {
      assert cards + [c] == [c];
    } else {
      assert (cards + [c])[1..] == cards[1..] + [c];
      FindAppend(cards[1..], c, id);
    }
  }

  lemma LookupUnfolds(cards: seq<Card>, id: u32)
    requires cards != []
    ensures Lookup(cards, id) == if cards[0].id == id then Some(cards[0]) else Lookup(cards[1..], id)
  {
  }

  lemma {:induction false} LookupWithout(cards: seq<Card>, i: nat, id: u32)
    requires i < |cards| && cards[i].id != id
    ensures Lookup(Without(cards, i), id) == Lookup(cards, id)
  {
    hide Lookup;
    LookupUnfolds(cards, id);
    if i == 0 {
      assert Without(cards, 0) == cards[1..];
    } else {
      var rest := Without(cards, i);
      assert rest[0] == cards[0] && rest[1..] == Without(cards[1..], i - 1);
      LookupUnfolds(rest, id);
      LookupWithout(cards[1..], i - 1, id);
    }
  }

  /** A call other than a format changes what is stored under no id but its own. */
  lemma OthersKept(db: Db, op: Op, id: u32)
    requires !op.Format?
    requires op.Add? || op.Remove? ==> op.id != id
    ensures Lookup(Apply(db, op).cards, id) == Lookup(db.cards, id)
  {
    if op.Add? {
      FindAppend(db.cards, NewCard(op), id);
    } else if op.Remove? && Has(db, op.id) {
      LookupWithout(db.cards, Find(db.cards, op.id), id);
    }
  }

  /** Only a format takes the admin card out; until then its record stays as it is. */
  lemma AdminStays(db: Db, op: Op)
    requires Has(db, ADMIN_CARD_ID) && !op.Format?
    ensures Lookup(Apply(db, op).cards, ADMIN_CARD_ID) == Lookup(db.cards, ADMIN_CARD_ID)
    ensures Has(Apply(db, op), ADMIN_CARD_ID)
  {
    if !((op.Add? || op.Remove?) && op.id == ADMIN_CARD_ID) {
      OthersKept(db, op, ADMIN_CARD_ID);
    }
  }

  /** An accepted add is found, and removing it again gives back the list there was. */
  lemma RemoveUndoesAdd(db: Db, op: Op)
    requires op.Add? && op.id != ADMIN_CARD_ID && Answer(db, op) == Code(Ok)
    ensures var db' := Apply(db, op);
            && Lookup(db'.cards, op.id) == Some(NewCard(op))
            && Answer(db', Check(op.id)) == Code(Ok)
            && Apply(db', Remove(op.id)) == db
  {
    FindAppend(db.cards, NewCard(op), op.id);
    assert Without(db.cards + [NewCard(op)], |db.cards|) == db.cards;
  }

  lemma NotInWithout(cards: seq<Card>, i: nat)
    requires i < |cards| && Distinct(cards)
    ensures forall k :: 0 <= k < |Without(cards, i)| ==> Without(cards, i)[k].id != cards[i].id
  {
    forall k | 0 <= k < |Without(cards, i)|
      ensures Without(cards, i)[k].id != cards[i].id
    {
      assert Without(cards, i)[k] == cards[if k < i then k else k + 1];
    }
  }

  /** A removed id is gone, since ids are distinct. */
  lemma RemovedIsGone(db: Db, id: u32)
    requires Distinct(db.cards) && Answer(db, Remove(id)) == Code(Ok)
    ensures Answer(Apply(db, Remove(id)), Check(id)) == Code(NotFound)
  {
    hide Without;
    var i := Find(db.cards, id);
    NotInWithout(db.cards, i);
    assert Find(Without(db.cards, i), id) == |Without(db.cards, i)|;
  }
}
