/**
 * `createCards` of the older tree (`src/core/create-cards.ts`): the same import-once rule over
 * the older store, with the sport as a plain string and the answer joined with the set.
 */
module LegacyCardImport {
  import opened Wrappers
  import opened Records
  import opened SetNames
  import opened LegacyCardService
  import CardImport

  /** `cards.map((card) => ({ ...card, setId }))`. */
  function Stamp(cards: seq<CardImport.LlmCard>, setId: int): (r: seq<NewCard>)
    ensures |r| == |cards|
    ensures forall i :: 0 <= i < |cards| ==>
      r[i] == NewCard(cards[i].cardNumber, cards[i].playerName, cards[i].cardType, setId)
  {
    seq(|cards|, i requires 0 <= i < |cards| =>
      NewCard(cards[i].cardNumber, cards[i].playerName, cards[i].cardType, setId))
  }

  /** The set an import of `fileName` creates under id `id`. */
  function ImportedSet(id: int, fileName: string, sport: string, currentYear: string): CardSet {
    var info := GetSetName(fileName, currentYear);
    SetOf(id, NewSet(info.name, info.year, fileName, sport))
  }

  /**
   * `createCards(filePath, sport, cards)`. When a set already has this file name as its
   * source file, nothing changes and the answer is []. Otherwise exactly one set is added;
   * an empty card list then makes the insert fail, leaving that set without cards, and any
   * other list is stored stamped with the new set's id and answered with that set's cards,
   * each joined with the set.
   */
  method CreateCards(store: TradingCardService, filePath: string, sport: string,
                     cards: seq<CardImport.LlmCard>, currentYear: string)
    returns (r: Result<seq<CardWithSet>, string>)
    requires store.Valid()
    modifies store
    ensures store.Valid()
    ensures old(store.FindBySourceFile(CardImport.FileName(filePath))).Some? ==>
      r == Success([]) && store.sets == old(store.sets) && store.cards == old(store.cards)
    ensures old(store.FindBySourceFile(CardImport.FileName(filePath))).None? ==>
      var s := ImportedSet(NextId(SetIds(old(store.sets))), CardImport.FileName(filePath), sport, currentYear);
      && (forall t :: t in old(store.sets) ==> t.id < s.id)
      && store.sets == old(store.sets) + [s]
      && (cards == [] ==> r == Failure(EmptyInsert) && store.cards == old(store.cards))
      && (cards != [] ==>
            var saved := Stored(Stamp(cards, s.id), NextId(CardIds(old(store.cards))));
            && store.cards == old(store.cards) + saved
            && r == Success(store.FindBySetIdWithSet(s.id))
            && (old(store.Linked()) ==>
                  store.Linked() && r.value == WithSets(saved, store.sets)
                  && forall i :: 0 <= i < |r.value| ==> r.value[i].cardSet == Some(s)))
  {
    var fileName := CardImport.FileName(filePath);
    var existingSet := store.FindBySourceFile(fileName);
    if existingSet.Some? {
      return Success([]);
    }
    var setInfo := GetSetName(fileName, currentYear);
    ghost var linked := store.Linked();
    ghost var oldSets := store.sets;
    ghost var oldCards := store.cards;
    assert linked ==> forall c :: c in oldCards ==> exists t :: t in oldSets && t.id == c.setId;
    var newSet := store.CreateSet(NewSet(setInfo.name, setInfo.year, fileName, sport));
    assert newSet == ImportedSet(NextId(SetIds(oldSets)), fileName, sport, currentYear);
    var setId := newSet.id;
    var cardsToInsert := Stamp(cards, setId);
    assert forall d :: d in cardsToInsert ==> d.setId == setId;
    assert newSet in store.sets;
    var savedCards := store.CreateCards(cardsToInsert);
    if savedCards.Failure? {
      return Failure(savedCards.error);
    }
    r := Success(store.FindBySetIdWithSet(setId));
    if linked {
      StoredSetIds(cardsToInsert, NextId(CardIds(oldCards)), setId);
      FreshSetCards(oldSets, oldCards, savedCards.value, setId);
      FirstByIdFinds(store.sets, newSet);
      var joined := r.value;
      assert joined == WithSets(savedCards.value, store.sets);
      forall i | 0 <= i < |joined| ensures joined[i].cardSet == Some(newSet) {
        assert savedCards.value[i] in savedCards.value;
      }
    }
  }
}
