/**
 * The card store of the server (`TradingCardService` over the `sets` and `cards` tables), as an
 * object holding the two tables in row order. A query is a function of the tables; an insert,
 * update or delete is a method that reassigns them.
 */
module CardService {
  import opened Wrappers
  import opened Records

  /** A row of the `cards` table. */
  datatype Card = Card(id: int, cardNumber: int, playerName: string, cardType: string,
                       setId: int, isOwned: bool)

  /** `CreateCardData`: a card before it has an id; `isOwned` may be left out. */
  datatype NewCard = NewCard(cardNumber: int, playerName: string, cardType: string,
                             setId: int, isOwned: Option<bool>)

  /** The row a `NewCard` becomes under id `id`; an omitted `isOwned` is stored as false. */
  function CardOf(id: int, data: NewCard): Card {
    Card(id, data.cardNumber, data.playerName, data.cardType, data.setId, data.isOwned.GetOr(false))
  }

  function CardIds(cards: seq<Card>): (r: seq<int>)
    ensures |r| == |cards| && forall i :: 0 <= i < |cards| ==> r[i] == cards[i].id
  {
    seq(|cards|, i requires 0 <= i < |cards| => cards[i].id)
  }

  /** The ids of the cards are positive and increase along the table. */
  predicate CardIdsIncrease(cards: seq<Card>) {
    (forall i :: 0 <= i < |cards| ==> cards[i].id > 0)
    && (forall i, j :: 0 <= i < j < |cards| ==> cards[i].id < cards[j].id)
  }

  /** The rows a bulk insert of `data` adds when the next free id is `first`: one per input,
      in input order, with consecutive ids. */
  function Stored(data: seq<NewCard>, first: int): (r: seq<Card>)
    ensures |r| == |data|
    ensures forall i :: 0 <= i < |data| ==> r[i] == CardOf(first + i, data[i])
  {
    seq(|data|, i requires 0 <= i < |data| => CardOf(first + i, data[i]))
  }

  /** `... where(eq(cards.setId, setId))`: the cards of set `setId`, in table order. */
  function CardsOf(cards: seq<Card>, setId: int): (r: seq<Card>)
    ensures forall c :: c in r <==> c in cards && c.setId == setId
    ensures |r| <= |cards|
  {
    if cards == [] then []
    else if cards[0].setId == setId then [cards[0]] + CardsOf(cards[1..], setId)
    else CardsOf(cards[1..], setId)
  }

  /** The cards a delete of set `setId` leaves, in table order. */
  function CardsOutside(cards: seq<Card>, setId: int): (r: seq<Card>)
    ensures forall c :: c in r <==> c in cards && c.setId != setId
    ensures |r| <= |cards|
  {
    if cards == [] then []
    else if cards[0].setId != setId then [cards[0]] + CardsOutside(cards[1..], setId)
    else CardsOutside(cards[1..], setId)
  }

  /** The ids of the rows after the first exceed the first's. */
  lemma FirstIdLeast(cards: seq<Card>, rest: seq<Card>)
    requires cards != [] && CardIdsIncrease(cards) && forall c :: c in rest ==> c in cards[1..]
    ensures CardIdsIncrease([cards[0]] + rest) <== CardIdsIncrease(rest)
  {
    forall c | c in rest ensures cards[0].id < c.id {
      var i :| 0 <= i < |cards[1..]| && cards[1..][i] == c;
    }
  }

  /** Selecting the cards of a set keeps table (id) order. */
  lemma {:induction false} CardsOfIncrease(cards: seq<Card>, setId: int)
    requires CardIdsIncrease(cards)
    ensures CardIdsIncrease(CardsOf(cards, setId))
  {
    if cards != [] {
      CardsOfIncrease(cards[1..], setId);
      FirstIdLeast(cards, CardsOf(cards[1..], setId));
    }
  }

  /** The cards a delete leaves keep table (id) order. */
  lemma {:induction false} CardsOutsideIncrease(cards: seq<Card>, setId: int)
    requires CardIdsIncrease(cards)
    ensures CardIdsIncrease(CardsOutside(cards, setId))
  {
    if cards != [] {
      CardsOutsideIncrease(cards[1..], setId);
      FirstIdLeast(cards, CardsOutside(cards[1..], setId));
    }
  }

  /** A delete of set `setId` splits the cards: the ones it removes are the ones
      `findBySetId(setId)` returns, and none is lost or duplicated. */
  lemma {:induction false} DeletePartitions(cards: seq<Card>, setId: int)
    ensures multiset(cards) == multiset(CardsOutside(cards, setId)) + multiset(CardsOf(cards, setId))
  {
    if cards != [] {
      DeletePartitions(cards[1..], setId);
      assert cards == [cards[0]] + cards[1..];
    }
  }

  /** `update(cards).set({ isOwned }).where(eq(cards.id, cardId))`. */
  function SetOwned(cards: seq<Card>, cardId: int, isOwned: bool): (r: seq<Card>)
    ensures |r| == |cards|
    ensures forall i :: 0 <= i < |cards| ==> r[i] == cards[i].(isOwned := r[i].isOwned)
    ensures forall i :: 0 <= i < |cards| ==>
      r[i].isOwned == if cards[i].id == cardId then isOwned else cards[i].isOwned
  {
    seq(|cards|, i requires 0 <= i < |cards| =>
      if cards[i].id == cardId then cards[i].(isOwned := isOwned) else cards[i])
  }

  /** The card with id `cardId`. */
  function FirstCardById(cards: seq<Card>, cardId: int): (r: Option<Card>)
    ensures r.Some? <==> exists c :: c in cards && c.id == cardId
    ensures r.Some? ==> r.value in cards && r.value.id == cardId
  {
    if cards == [] then None
    else if cards[0].id == cardId then Some(cards[0])
    else FirstCardById(cards[1..], cardId)
  }

  /** With unique ids, the card with a given id is the only one. */
  lemma FirstCardByIdUnique(cards: seq<Card>, i: nat)
    requires CardIdsIncrease(cards) && i < |cards|
    ensures FirstCardById(cards, cards[i].id) == Some(cards[i])
  {
    var r := FirstCardById(cards, cards[i].id);
    var j :| 0 <= j < |cards| && cards[j] == r.value;
  }

  /** The update keeps every row's id and set, so it keeps the ids increasing. */
  lemma SetOwnedKeepsIds(cards: seq<Card>, cardId: int, isOwned: bool)
    requires CardIdsIncrease(cards)
    ensures CardIdsIncrease(SetOwned(cards, cardId, isOwned))
  {
  }

  /** `returning()` of the update: the updated card, when there is one. */
  lemma SetOwnedFinds(cards: seq<Card>, cardId: int, isOwned: bool)
    requires CardIdsIncrease(cards)
    ensures var r := FirstCardById(SetOwned(cards, cardId, isOwned), cardId);
      r.Some? <==> FirstCardById(cards, cardId).Some?
    ensures var r := FirstCardById(SetOwned(cards, cardId, isOwned), cardId);
      r.Some? ==> r.value == FirstCardById(cards, cardId).value.(isOwned := isOwned)
  {
    var after := SetOwned(cards, cardId, isOwned);
    var found := FirstCardById(cards, cardId);
    if found.Some? {
      var i :| 0 <= i < |cards| && cards[i] == found.value;
      FirstCardByIdUnique(cards, i);
      SetOwnedKeepsIds(cards, cardId, isOwned);
      FirstCardByIdUnique(after, i);
    }
  }

  /** Rows with increasing ids are all different. */
  lemma {:induction false} CardsDistinctCount(cards: seq<Card>)
    requires CardIdsIncrease(cards)
    ensures |set c | c in cards| == |cards|
  {
    if cards != [] {
      var n := |cards| - 1;
      CardsDistinctCount(cards[..n]);
      assert (set c | c in cards) == (set c | c in cards[..n]) + {cards[n]};
      assert cards[n] !in cards[..n];
    }
  }

  /** With unique ids, the count of cards in a set is the count of different rows with that
      set id. */
  lemma CardsOfCount(cards: seq<Card>, setId: int)
    requires CardIdsIncrease(cards)
    ensures |CardsOf(cards, setId)| == |set c | c in cards && c.setId == setId|
  {
    var r := CardsOf(cards, setId);
    CardsOfIncrease(cards, setId);
    CardsDistinctCount(r);
    assert (set c | c in r) == (set c | c in cards && c.setId == setId);
  }

  function Types(cards: seq<Card>): (r: seq<string>)
    ensures |r| == |cards| && forall i :: 0 <= i < |cards| ==> r[i] == cards[i].cardType
  {
    seq(|cards|, i requires 0 <= i < |cards| => cards[i].cardType)
  }

  function Players(cards: seq<Card>): (r: seq<string>)
    ensures |r| == |cards| && forall i :: 0 <= i < |cards| ==> r[i] == cards[i].playerName
  {
    seq(|cards|, i requires 0 <= i < |cards| => cards[i].playerName)
  }

  /** A bulk insert under the next free id gives every new row an id above every stored
      one, so the ids keep increasing. */
  lemma StoredAfter(cards: seq<Card>, data: seq<NewCard>)
    requires CardIdsIncrease(cards)
    ensures forall c, d :: c in cards && d in Stored(data, NextId(CardIds(cards))) ==> c.id < d.id
    ensures CardIdsIncrease(cards + Stored(data, NextId(CardIds(cards))))
  {
    var first := NextId(CardIds(cards));
    var r := Stored(data, first);
    forall i | 0 <= i < |cards| ensures cards[i].id < first {
      assert CardIds(cards)[i] == cards[i].id;
    }
    var all := cards + r;
    forall i, j | 0 <= i < j < |all| ensures all[i].id < all[j].id {
      if |cards| <= i {
        assert all[i] == r[i - |cards|] && all[j] == r[j - |cards|];
      } else if |cards| <= j {
        assert all[j] == r[j - |cards|];
      }
    }
    forall i | 0 <= i < |all| ensures all[i].id > 0 {
      if |cards| <= i {
        assert all[i] == r[i - |cards|];
      }
    }
  }

  /** Selecting from two runs of rows selects from each, in order. */
  lemma {:induction false} CardsOfAppend(a: seq<Card>, b: seq<Card>, setId: int)
    ensures CardsOf(a + b, setId) == CardsOf(a, setId) + CardsOf(b, setId)
  {
    if a == [] {
      assert a + b == b;
    } else {
      var t := a + b;
      assert t[0] == a[0] && t[1..] == a[1..] + b;
      CardsOfAppend(a[1..], b, setId);
      if a[0].setId == setId {
        assert CardsOf(t, setId) == [a[0]] + CardsOf(t[1..], setId);
      } else {
        assert CardsOf(t, setId) == CardsOf(t[1..], setId);
      }
    }
  }

  /** Rows that all belong to set `setId` are all selected. */
  lemma {:induction false} CardsOfAll(cards: seq<Card>, setId: int)
    requires forall c :: c in cards ==> c.setId == setId
    ensures CardsOf(cards, setId) == cards
  {
    if cards != [] {
      assert cards[0] in cards;
      CardsOfAll(cards[1..], setId);
    }
  }

  /** Stored rows keep the set ids of their inputs. */
  lemma StoredSetIds(data: seq<NewCard>, first: int, setId: int)
    requires forall d :: d in data ==> d.setId == setId
    ensures forall c :: c in Stored(data, first) ==> c.setId == setId
  {
    var r := Stored(data, first);
    forall c | c in r ensures c.setId == setId {
      var i :| 0 <= i < |r| && r[i] == c;
      assert data[i] in data;
    }
  }

  /** Stored rows refer to stored sets when their inputs do. */
  lemma StoredLinked(data: seq<NewCard>, first: int, sets: seq<CardSet>)
    requires forall d :: d in data ==> FirstById(sets, d.setId).Some?
    ensures forall c :: c in Stored(data, first) ==> exists s :: s in sets && s.id == c.setId
  {
    var r := Stored(data, first);
    forall c | c in r ensures exists s :: s in sets && s.id == c.setId {
      var i :| 0 <= i < |r| && r[i] == c;
      assert data[i] in data;
    }
  }

  /** Right after a new set is created, the cards of that set are exactly the ones stamped
      with its id: every older card refers to an older set, and those have smaller ids. */
  lemma {:induction false} FreshSetCards(sets: seq<CardSet>, older: seq<Card>, added: seq<Card>, setId: int)
    requires forall c :: c in older ==> exists t :: t in sets && t.id == c.setId
    requires forall t :: t in sets ==> t.id < setId
    requires forall c :: c in added ==> c.setId == setId
    ensures CardsOf(older + added, setId) == added
  {
    CardsOfAppend(older, added, setId);
    CardsOfAll(added, setId);
    forall c | c in older ensures c.setId != setId {
      var t :| t in sets && t.id == c.setId;
    }
    NoneLeft(older, setId);
  }

  /** A sequence none of whose cards has set id `setId` selects nothing for it. */
  lemma NoneLeft(cards: seq<Card>, setId: int)
    ensures (forall c :: c in cards ==> c.setId != setId) <==> CardsOf(cards, setId) == []
  {
    if CardsOf(cards, setId) != [] {
      assert CardsOf(cards, setId)[0] in CardsOf(cards, setId);
    }
  }

  /** The different player names of some cards. */
  lemma PlayerNames(cards: seq<Card>)
    ensures (set p | p in Players(cards)) == (set c | c in cards :: c.playerName)
  {
    var ps := Players(cards);
    forall p | p in ps ensures p in (set c | c in cards :: c.playerName) {
      var i :| 0 <= i < |ps| && ps[i] == p;
      assert cards[i] in cards;
    }
    forall c | c in cards ensures c.playerName in ps {
      var i :| 0 <= i < |cards| && cards[i] == c;
      assert ps[i] == c.playerName;
    }
  }

  class TradingCardService {
    var sets: seq<CardSet>
    var cards: seq<Card>

    /** Both tables have positive row ids that increase along the table. */
    predicate Valid()
      reads this
    {
      SetIdsIncrease(sets) && CardIdsIncrease(cards)
    }

    /** Every card's `setId` names a stored set. */
    predicate Linked()
      reads this
    {
      forall c :: c in cards ==> exists s :: s in sets && s.id == c.setId
    }

    constructor()
      ensures sets == [] && cards == []
      ensures Valid() && Linked()
    {
      sets := [];
      cards := [];
    }

    /** `sets.create`: inserts the set under the next free id and returns the row. */
    method CreateSet(data: NewSet) returns (s: CardSet)
      requires Valid()
      modifies this
      ensures s == SetOf(NextId(SetIds(old(sets))), data)
      ensures forall t :: t in old(sets) ==> t.id < s.id
      ensures sets == old(sets) + [s] && cards == old(cards)
      ensures Valid()
      ensures old(Linked()) ==> Linked()
    {
      s := SetOf(NextId(SetIds(sets)), data);
      forall t | t in sets ensures t.id < s.id {
        var i :| 0 <= i < |sets| && sets[i] == t;
        assert SetIds(sets)[i] == t.id;
      }
      sets := sets + [s];
    }

    /** `sets.findBySourceFile`. */
    function FindBySourceFile(sourceFile: string): (r: Option<CardSet>)
      reads this
      ensures r.Some? <==> exists s :: s in sets && s.sourceFile == sourceFile
      ensures r.Some? ==> r.value in sets && r.value.sourceFile == sourceFile
    {
      FirstBySourceFile(sets, sourceFile)
    }

    /** `sets.findById`. */
    function FindById(id: int): (r: Option<CardSet>)
      reads this
      ensures r.Some? <==> exists s :: s in sets && s.id == id
      ensures r.Some? ==> r.value in sets && r.value.id == id
    {
      FirstById(sets, id)
    }

    /** `sets.delete`: deletes the cards of the set, then the set, and answers true whether
        or not the set existed; every other row stays, in its order. */
    method DeleteSet(id: int) returns (ok: bool)
      requires Valid()
      modifies this
      ensures ok
      ensures cards == CardsOutside(old(cards), id)
      ensures sets == SetsWithout(old(sets), id)
      ensures FindById(id).None? && FindBySetId(id) == []
      ensures Valid()
      ensures old(Linked()) ==> Linked()
    {
      CardsOutsideIncrease(cards, id);
      SetsWithoutIncrease(sets, id);
      cards := CardsOutside(cards, id);
      sets := SetsWithout(sets, id);
      NoneLeft(cards, id);
      ok := true;
    }

    /** `cards.create`: a bulk insert; an empty input returns [] and stores nothing. */
    method CreateCards(data: seq<NewCard>) returns (r: seq<Card>)
      requires Valid()
      modifies this
      ensures r == Stored(data, NextId(CardIds(old(cards))))
      ensures cards == old(cards) + r && sets == old(sets)
      ensures data == [] ==> r == [] && cards == old(cards)
      ensures forall c, d :: c in old(cards) && d in r ==> c.id < d.id
      ensures Valid()
      ensures old(Linked()) && (forall d :: d in data ==> FindById(d.setId).Some?) ==> Linked()
    {
      if |data| == 0 {
        return [];
      }
      StoredAfter(cards, data);
      r := Stored(data, NextId(CardIds(cards)));
      if Linked() && (forall d :: d in data ==> FindById(d.setId).Some?) {
        StoredLinked(data, NextId(CardIds(cards)), sets);
      }
      cards := cards + r;
    }

    /** `cards.createSingle`: inserts one card under the next free id and returns the row. */
    method CreateSingle(data: NewCard) returns (c: Card)
      requires Valid()
      modifies this
      ensures c == CardOf(NextId(CardIds(old(cards))), data)
      ensures forall d :: d in old(cards) ==> d.id < c.id
      ensures cards == old(cards) + [c] && sets == old(sets)
      ensures Valid()
      ensures old(Linked()) && FindById(data.setId).Some? ==> Linked()
    {
      var id := NextId(CardIds(cards));
      c := CardOf(id, data);
      forall d | d in cards ensures d.id < c.id {
        var i :| 0 <= i < |cards| && cards[i] == d;
        assert CardIds(cards)[i] == d.id;
      }
      cards := cards + [c];
    }

    /** `cards.findById`. */
    function FindCardById(cardId: int): (r: Option<Card>)
      reads this
      ensures r.Some? <==> exists c :: c in cards && c.id == cardId
      ensures r.Some? ==> r.value in cards && r.value.id == cardId
    {
      FirstCardById(cards, cardId)
    }

    /** `cards.findBySetId`: exactly the stored cards of the set, in table (id) order. */
    function FindBySetId(setId: int): (r: seq<Card>)
      reads this
      ensures forall c :: c in r <==> c in cards && c.setId == setId
      ensures Valid() ==> CardIdsIncrease(r)
    {
      var r := CardsOf(cards, setId);
      assert Valid() ==> CardIdsIncrease(r) by {
        if Valid() {
          CardsOfIncrease(cards, setId);
        }
      }
      r
    }

    /** `cards.updateOwnership`: sets `isOwned` on the card with that id and returns it, or
        nothing when there is no such card; no other field and no other row changes. */
    method UpdateOwnership(cardId: int, isOwned: bool) returns (r: Option<Card>)
      requires Valid()
      modifies this
      ensures cards == SetOwned(old(cards), cardId, isOwned) && sets == old(sets)
      ensures r.Some? <==> old(FindCardById(cardId)).Some?
      ensures r.Some? ==> r.value == old(FindCardById(cardId)).value.(isOwned := isOwned)
      ensures r == FindCardById(cardId)
      ensures Valid()
      ensures old(Linked()) ==> Linked()
    {
      var before := cards;
      SetOwnedFinds(cards, cardId, isOwned);
      SetOwnedKeepsIds(cards, cardId, isOwned);
      cards := SetOwned(cards, cardId, isOwned);
      r := FirstCardById(cards, cardId);
      forall c | c in cards ensures exists d :: d in before && d.setId == c.setId {
        var i :| 0 <= i < |cards| && cards[i] == c;
        assert before[i] in before;
      }
    }

    /** `findCardsInSet`: the cards of the set; none when the set is unknown and every card
        refers to a stored set. */
    function FindCardsInSet(setId: int): (r: seq<Card>)
      reads this
      ensures forall c :: c in r <==> c in cards && c.setId == setId
      ensures Linked() && FindById(setId).None? ==> r == []
    {
      var r := FindBySetId(setId);
      NoneLeft(r, setId);
      r
    }

    /** `getSetStats`: nothing when the set is missing; otherwise the set, the number of its
        cards, the distinct card types and players in first-encounter order, and the first 10
        of those players. */
    function GetSetStats(setId: int): (r: Option<SetStats>)
      reads this
      ensures r.None? <==> FindById(setId).None?
      ensures r.Some? ==> r.value.cardSet == FindById(setId).value
      ensures r.Some? ==> r.value.totalCards == |FindBySetId(setId)|
      ensures r.Some? ==> r.value.cardTypes == Distinct(Types(FindBySetId(setId)))
      ensures r.Some? ==> r.value.uniqueCardTypes == |r.value.cardTypes|
      ensures r.Some? ==> r.value.uniquePlayers == |set c | c in FindBySetId(setId) :: c.playerName|
      ensures r.Some? ==> r.value.players <= Distinct(Players(FindBySetId(setId)))
      ensures r.Some? ==> |r.value.players| <= PreviewLimit
      ensures r.Some? && r.value.uniquePlayers >= PreviewLimit ==> |r.value.players| == PreviewLimit
      ensures r.Some? && r.value.uniquePlayers < PreviewLimit ==>
        r.value.players == Distinct(Players(FindBySetId(setId)))
    {
      var setInfo := FindById(setId);
      var allCards := FindBySetId(setId);
      if setInfo.None? then None
      else
        var players := Players(allCards);
        DistinctCount(Types(allCards));
        DistinctCount(players);
        PlayerNames(allCards);
        Some(StatsOf(setInfo.value, Types(allCards), players))
    }

    /** `totalCards` is the number of stored cards with that set id. */
    lemma TotalCardsCounts(setId: int)
      requires Valid() && GetSetStats(setId).Some?
      ensures GetSetStats(setId).value.totalCards == |set c | c in cards && c.setId == setId|
    {
      CardsOfCount(cards, setId);
    }
  }
}
