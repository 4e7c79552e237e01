/**
 * The older card store (`src/db/service.ts`): the same `sets` table, a `cards` table without an
 * ownership column, no delete and no ownership update, and a bulk insert without the guard
 * for an empty input, which the ORM refuses.
 */
module LegacyCardService {
  import opened Wrappers
  import opened Records

  /** A row of the older `cards` table. */
  datatype Card = Card(id: int, cardNumber: int, playerName: string, cardType: string, setId: int)

  /** `CreateCardData` of the older store. */
  datatype NewCard = NewCard(cardNumber: int, playerName: string, cardType: string, setId: int)

  /** A card joined with the set its `setId` names, or with nothing when no set has that id. */
  datatype CardWithSet = CardWithSet(card: Card, cardSet: Option<CardSet>)

  /** The error an empty insert raises. */
  const EmptyInsert := "values() must be called with at least one value"

  function CardOf(id: int, data: NewCard): Card {
    Card(id, data.cardNumber, data.playerName, data.cardType, data.setId)
  }

  function CardIds(cards: seq<Card>): (r: seq<int>)
    ensures |r| == |cards| && forall i :: 0 <= i < |cards| ==> r[i] == cards[i].id
  {
    seq(|cards|, i requires 0 <= i < |cards| => cards[i].id)
  }

  predicate CardIdsIncrease(cards: seq<Card>) {
    (forall i :: 0 <= i < |cards| ==> cards[i].id > 0)
    && (forall i, j :: 0 <= i < j < |cards| ==> cards[i].id < cards[j].id)
  }

  /** The rows a bulk insert of `data` adds when the next free id is `first`. */
  function Stored(data: seq<NewCard>, first: int): (r: seq<Card>)
    ensures |r| == |data|
    ensures forall i :: 0 <= i < |data| ==> r[i] == CardOf(first + i, data[i])
  {
    seq(|data|, i requires 0 <= i < |data| => CardOf(first + i, data[i]))
  }

  /** The cards of set `setId`, in table order. */
  function CardsOf(cards: seq<Card>, setId: int): (r: seq<Card>)
    ensures forall c :: c in r <==> c in cards && c.setId == setId
    ensures |r| <= |cards|
  {
    if cards == [] then []
    else if cards[0].setId == setId then [cards[0]] + CardsOf(cards[1..], setId)
    else CardsOf(cards[1..], setId)
  }

  /** The ids of the rows after the first exceed the first's. */
  lemma FirstIdLeast(cards: seq<Card>, rest: seq<Card>)
    requires cards != [] && CardIdsIncrease(cards) && forall c :: c in rest ==> c in cards[1..]
    ensures CardIdsIncrease([cards[0]] + rest) <== CardIdsIncrease(rest)
  {
    forall c | c in rest ensures cards[0].id < c.id {
      var i :| 0 <= i < |cards[1..]| && cards[1..][i] == c;
    }
  }

  /** Selecting the cards of a set keeps table (id) order. */
  lemma {:induction false} CardsOfIncrease(cards: seq<Card>, setId: int)
    requires CardIdsIncrease(cards)
    ensures CardIdsIncrease(CardsOf(cards, setId))
  {
    if cards != [] {
      CardsOfIncrease(cards[1..], setId);
      FirstIdLeast(cards, CardsOf(cards[1..], setId));
    }
  }

  lemma {:induction false} CardsOfAppend(a: seq<Card>, b: seq<Card>, setId: int)
    ensures CardsOf(a + b, setId) == CardsOf(a, setId) + CardsOf(b, setId)
  {
    if a == [] {
      assert a + b == b;
    } else {
      var t := a + b;
      assert t[0] == a[0] && t[1..] == a[1..] + b;
      CardsOfAppend(a[1..], b, setId);
      if a[0].setId == setId {
        assert CardsOf(t, setId) == [a[0]] + CardsOf(t[1..], setId);
      } else {
        assert CardsOf(t, setId) == CardsOf(t[1..], setId);
      }
    }
  }

  lemma {:induction false} CardsOfAll(cards: seq<Card>, setId: int)
    requires forall c :: c in cards ==> c.setId == setId
    ensures CardsOf(cards, setId) == cards
  {
    if cards != [] {
      assert cards[0] in cards;
      CardsOfAll(cards[1..], setId);
    }
  }

  /** Stored rows keep the set ids of their inputs. */
  lemma StoredSetIds(data: seq<NewCard>, first: int, setId: int)
    requires forall d :: d in data ==> d.setId == setId
    ensures forall c :: c in Stored(data, first) ==> c.setId == setId
  {
    var r := Stored(data, first);
    forall c | c in r ensures c.setId == setId {
      var i :| 0 <= i < |r| && r[i] == c;
      assert data[i] in data;
    }
  }

  /** Stored rows refer to stored sets when their inputs do. */
  lemma StoredLinked(data: seq<NewCard>, first: int, sets: seq<CardSet>)
    requires forall d :: d in data ==> FirstById(sets, d.setId).Some?
    ensures forall c :: c in Stored(data, first) ==> exists s :: s in sets && s.id == c.setId
  {
    var r := Stored(data, first);
    forall c | c in r ensures exists s :: s in sets && s.id == c.setId {
      var i :| 0 <= i < |r| && r[i] == c;
      assert data[i] in data;
    }
  }

  /** Right after a new set is created, the cards of that set are exactly the ones stamped
      with its id: every older card refers to an older set, and those have smaller ids. */
  lemma {:induction false} FreshSetCards(sets: seq<CardSet>, older: seq<Card>, added: seq<Card>, setId: int)
    requires forall c :: c in older ==> exists t :: t in sets && t.id == c.setId
    requires forall t :: t in sets ==> t.id < setId
    requires forall c :: c in added ==> c.setId == setId
    ensures CardsOf(older + added, setId) == added
  {
    CardsOfAppend(older, added, setId);
    CardsOfAll(added, setId);
    forall c | c in older ensures c.setId != setId {
      var t :| t in sets && t.id == c.setId;
    }
    NoneLeft(older, setId);
  }

  lemma NoneLeft(cards: seq<Card>, setId: int)
    ensures (forall c :: c in cards ==> c.setId != setId) <==> CardsOf(cards, setId) == []
  {
    if CardsOf(cards, setId) != [] {
      assert CardsOf(cards, setId)[0] in CardsOf(cards, setId);
    }
  }

  /** `with: { set: true }`: each card with the set its `setId` names. */
  function WithSets(cards: seq<Card>, sets: seq<CardSet>): (r: seq<CardWithSet>)
    ensures |r| == |cards|
    ensures forall i :: 0 <= i < |cards| ==>
      r[i].card == cards[i] && r[i].cardSet == FirstById(sets, cards[i].setId)
  {
    seq(|cards|, i requires 0 <= i < |cards| => CardWithSet(cards[i], FirstById(sets, cards[i].setId)))
  }

  function Types(cards: seq<Card>): (r: seq<string>)
    ensures |r| == |cards| && forall i :: 0 <= i < |cards| ==> r[i] == cards[i].cardType
  {
    seq(|cards|, i requires 0 <= i < |cards| => cards[i].cardType)
  }

  function Players(cards: seq<Card>): (r: seq<string>)
    ensures |r| == |cards| && forall i :: 0 <= i < |cards| ==> r[i] == cards[i].playerName
  {
    seq(|cards|, i requires 0 <= i < |cards| => cards[i].playerName)
  }

  /** The different player names of some cards. */
  lemma PlayerNames(cards: seq<Card>)
    ensures (set p | p in Players(cards)) == (set c | c in cards :: c.playerName)
  {
    var ps := Players(cards);
    forall p | p in ps ensures p in (set c | c in cards :: c.playerName) {
      var i :| 0 <= i < |ps| && ps[i] == p;
      assert cards[i] in cards;
    }
    forall c | c in cards ensures c.playerName in ps {
      var i :| 0 <= i < |cards| && cards[i] == c;
      assert ps[i] == c.playerName;
    }
  }

  /** A bulk insert under the next free id keeps the ids increasing. */
  lemma StoredAfter(cards: seq<Card>, data: seq<NewCard>)
    requires CardIdsIncrease(cards)
    ensures forall c, d :: c in cards && d in Stored(data, NextId(CardIds(cards))) ==> c.id < d.id
    ensures CardIdsIncrease(cards + Stored(data, NextId(CardIds(cards))))
  {
    var first := NextId(CardIds(cards));
    var r := Stored(data, first);
    forall i | 0 <= i < |cards| ensures cards[i].id < first {
      assert CardIds(cards)[i] == cards[i].id;
    }
    var all := cards + r;
    forall i, j | 0 <= i < j < |all| ensures all[i].id < all[j].id {
      if |cards| <= i {
        assert all[i] == r[i - |cards|] && all[j] == r[j - |cards|];
      } else if |cards| <= j {
        assert all[j] == r[j - |cards|];
      }
    }
    forall i | 0 <= i < |all| ensures all[i].id > 0 {
      if |cards| <= i {
        assert all[i] == r[i - |cards|];
      }
    }
  }

  class TradingCardService {
    var sets: seq<CardSet>
    var cards: seq<Card>

    predicate Valid()
      reads this
    {
      SetIdsIncrease(sets) && CardIdsIncrease(cards)
    }

    /** Every card's `setId` names a stored set (the column's foreign key). */
    predicate Linked()
      reads this
    {
      forall c :: c in cards ==> exists s :: s in sets && s.id == c.setId
    }

    constructor()
      ensures sets == [] && cards == []
      ensures Valid() && Linked()
    {
      sets := [];
      cards := [];
    }

    /** `sets.create`. */
    method CreateSet(data: NewSet) returns (s: CardSet)
      requires Valid()
      modifies this
      ensures s == SetOf(NextId(SetIds(old(sets))), data)
      ensures forall t :: t in old(sets) ==> t.id < s.id
      ensures sets == old(sets) + [s] && cards == old(cards)
      ensures Valid()
      ensures old(Linked()) ==> Linked()
    {
      s := SetOf(NextId(SetIds(sets)), data);
      forall t | t in sets ensures t.id < s.id {
        var i :| 0 <= i < |sets| && sets[i] == t;
        assert SetIds(sets)[i] == t.id;
      }
      sets := sets + [s];
    }

    /** `sets.findBySourceFile`. */
    function FindBySourceFile(sourceFile: string): (r: Option<CardSet>)
      reads this
      ensures r.Some? <==> exists s :: s in sets && s.sourceFile == sourceFile
      ensures r.Some? ==> r.value in sets && r.value.sourceFile == sourceFile
    {
      FirstBySourceFile(sets, sourceFile)
    }

    /** `sets.findById`. */
    function FindById(id: int): (r: Option<CardSet>)
      reads this
      ensures r.Some? <==> exists s :: s in sets && s.id == id
      ensures r.Some? ==> r.value in sets && r.value.id == id
    {
      FirstById(sets, id)
    }

    /** `cards.create`: a bulk insert of every card with its given set id; an empty input is
        refused and stores nothing. */
    method CreateCards(data: seq<NewCard>) returns (r: Result<seq<Card>, string>)
      requires Valid()
      modifies this
      ensures r.Failure? <==> data == []
      ensures r.Failure? ==> r.error == EmptyInsert && cards == old(cards)
      ensures r.Success? ==>
        r.value == Stored(data, NextId(CardIds(old(cards)))) && cards == old(cards) + r.value
      ensures sets == old(sets)
      ensures Valid()
      ensures old(Linked()) && (forall d :: d in data ==> FindById(d.setId).Some?) ==> Linked()
    {
      if |data| == 0 {
        return Failure(EmptyInsert);
      }
      StoredAfter(cards, data);
      var saved := Stored(data, NextId(CardIds(cards)));
      if Linked() && (forall d :: d in data ==> FindById(d.setId).Some?) {
        StoredLinked(data, NextId(CardIds(cards)), sets);
      }
      cards := cards + saved;
      r := Success(saved);
    }

    /** `cards.findBySetId`: exactly the stored cards of the set, in table (id) order. */
    function FindBySetId(setId: int): (r: seq<Card>)
      reads this
      ensures forall c :: c in r <==> c in cards && c.setId == setId
      ensures Valid() ==> CardIdsIncrease(r)
    {
      var r := CardsOf(cards, setId);
      assert Valid() ==> CardIdsIncrease(r) by {
        if Valid() {
          CardsOfIncrease(cards, setId);
        }
      }
      r
    }

    /** `cards.findBySetIdWithSet`: the cards of the set, each joined with its set. */
    function FindBySetIdWithSet(setId: int): (r: seq<CardWithSet>)
      reads this
      ensures |r| == |FindBySetId(setId)|
      ensures forall i :: 0 <= i < |r| ==> r[i].card == FindBySetId(setId)[i]
      ensures forall i :: 0 <= i < |r| ==> r[i].cardSet == FindById(setId)
    {
      WithSets(CardsOf(cards, setId), sets)
    }

    /** `findCardsInSet`: the cards of the set; none for an unknown set when every card
        refers to a stored set. */
    function FindCardsInSet(setId: int): (r: seq<Card>)
      reads this
      ensures forall c :: c in r <==> c in cards && c.setId == setId
      ensures Linked() && FindById(setId).None? ==> r == []
    {
      var r := FindBySetId(setId);
      NoneLeft(r, setId);
      r
    }

    /** `getSetStats`: nothing when the set is missing; otherwise the set, the number of its
        cards, the distinct card types and players in first-encounter order, and the first 10
        of those players. */
    function GetSetStats(setId: int): (r: Option<SetStats>)
      reads this
      ensures r.None? <==> FindById(setId).None?
      ensures r.Some? ==> r.value.cardSet == FindById(setId).value
      ensures r.Some? ==> r.value.totalCards == |FindBySetId(setId)|
      ensures r.Some? ==> r.value.cardTypes == Distinct(Types(FindBySetId(setId)))
      ensures r.Some? ==> r.value.uniqueCardTypes == |r.value.cardTypes|
      ensures r.Some? ==> r.value.uniquePlayers == |set c | c in FindBySetId(setId) :: c.playerName|
      ensures r.Some? ==> r.value.players <= Distinct(Players(FindBySetId(setId)))
      ensures r.Some? ==> |r.value.players| <= PreviewLimit
      ensures r.Some? && r.value.uniquePlayers >= PreviewLimit ==> |r.value.players| == PreviewLimit
      ensures r.Some? && r.value.uniquePlayers < PreviewLimit ==>
        r.value.players == Distinct(Players(FindBySetId(setId)))
    {
      var setInfo := FindById(setId);
      var allCards := FindBySetId(setId);
      if setInfo.None? then None
      else
        var players := Players(allCards);
        DistinctCount(Types(allCards));
        DistinctCount(players);
        PlayerNames(allCards);
        Some(StatsOf(setInfo.value, Types(allCards), players))
    }
  }
}
