/**
 * `createCards` of the server: imports the cards read from one checklist file, at most once
 * per file name.
 */
module CardImport {
  import opened Wrappers
  import opened Text
  import opened Records
  import opened SetNames
  import opened Sports
  import opened CardService

  /** `CardsFromLLM`: a card as the checklist reader hands it over. */
  datatype LlmCard = LlmCard(cardNumber: int, playerName: string, cardType: string)

  /** The value of the `Sport` enum stored in a set's `sport` column. */
  function SportName(sport: Sport): string {
    match sport
    case Basketball => "Basketball"
    case Football => "Football"
  }

  /** `filePath.split("/").pop() || filePath`. */
  function FileName(filePath: string): string {
    var parts := SplitOn(filePath, '/');
    var last := parts[|parts| - 1];
    if last == "" then filePath else last
  }

  /** The last piece of `split(c)` is the text after the last `c`. */
  lemma {:induction false} LastPieceAfterLast(s: string, c: char)
    ensures var parts := SplitOn(s, c); parts[|parts| - 1] == s[LastIndexOf(s, c) + 1..]
  {
    if s != [] {
      LastPieceAfterLast(s[1..], c);
      SplitOnOnePiece(s[1..], c);
      var k := LastIndexOf(s[1..], c);
      var parts, t := SplitOn(s, c), SplitOn(s[1..], c);
      if k >= 0 {
        assert s[1..][k] == c;
        assert parts[|parts| - 1] == t[|t| - 1];
        LastIndexOfIs(s, c, k + 1);
        assert s[1..][k + 1..] == s[k + 2..];
      } else if s[0] == c {
        LastIndexOfIs(s, c, 0);
      } else {
        assert parts == [[s[0]] + s[1..]];
        LastIndexOfIs(s, c, -1);
      }
    }
  }

  /** `split(c)` gives one piece, the whole string, exactly when `c` does not occur. */
  lemma {:induction false} SplitOnOnePiece(s: string, c: char)
    ensures (|SplitOn(s, c)| == 1) == (c !in s)
    ensures c !in s ==> SplitOn(s, c) == [s]
  {
    if s != [] {
      SplitOnOnePiece(s[1..], c);
      assert s == [s[0]] + s[1..];
    }
  }

  /** `LastIndexOf` is the one index its contract describes. */
  lemma LastIndexOfIs(s: string, c: char, k: int)
    requires -1 <= k < |s| && (k >= 0 ==> s[k] == c)
    requires forall j :: k < j < |s| ==> s[j] != c
    ensures LastIndexOf(s, c) == k
  {
    var m := LastIndexOf(s, c);
    assert !(m < k) && !(k < m);
  }

  /** The file name is the text after the last '/', or the whole path when that text is
      empty. */
  lemma FileNameIsLastSegment(filePath: string)
    ensures var tail := filePath[LastIndexOf(filePath, '/') + 1..];
      FileName(filePath) == if tail == "" then filePath else tail
    ensures FileName(filePath) == filePath || '/' !in FileName(filePath)
  {
    LastPieceAfterLast(filePath, '/');
    AfterLastIndex(filePath, '/');
  }

  /** `cards.map((card) => ({ ...card, setId }))`. */
  function Stamp(cards: seq<LlmCard>, setId: int): (r: seq<NewCard>)
    ensures |r| == |cards|
    ensures forall i :: 0 <= i < |cards| ==>
      r[i] == NewCard(cards[i].cardNumber, cards[i].playerName, cards[i].cardType, setId, None)
  {
    seq(|cards|, i requires 0 <= i < |cards| =>
      NewCard(cards[i].cardNumber, cards[i].playerName, cards[i].cardType, setId, None))
  }

  /** The checklist fields of stamped rows, in order: what `Stamp` keeps of each card. */
  function Unstamped(ds: seq<NewCard>): (r: seq<LlmCard>)
    ensures |r| == |ds|
  {
    if ds == [] then [] else [LlmCard(ds[0].cardNumber, ds[0].playerName, ds[0].cardType)] + Unstamped(ds[1..])
  }

  /** Stamping keeps every checklist field of every card, in input order. */
  lemma {:induction false} StampRoundTrip(cards: seq<LlmCard>, setId: int)
    ensures Unstamped(Stamp(cards, setId)) == cards
  {
    if cards != [] {
      StampRoundTrip(cards[1..], setId);
      assert Stamp(cards, setId)[1..] == Stamp(cards[1..], setId);
    }
  }

  /** Every stamped row belongs to the new set and leaves `isOwned` to the column default. */
  lemma StampForSet(cards: seq<LlmCard>, setId: int)
    ensures forall d :: d in Stamp(cards, setId) ==> d.setId == setId && d.isOwned == None
  {
  }

  /** Stamping a concatenation stamps each part. */
  lemma StampAppend(a: seq<LlmCard>, b: seq<LlmCard>, setId: int)
    ensures Stamp(a + b, setId) == Stamp(a, setId) + Stamp(b, setId)
  {
  }

  /** The set an import of `fileName` creates under id `id`. */
  function ImportedSet(id: int, fileName: string, sport: Sport, currentYear: string): CardSet {
    var info := GetSetName(fileName, currentYear);
    SetOf(id, NewSet(info.name, info.year, fileName, SportName(sport)))
  }

  /**
   * `createCards(filePath, sport, cards)`. When a set already has this file name as its
   * source file, nothing changes and the answer is []. Otherwise exactly one set is added,
   * named after the file, every card is stored stamped with the new set's id, and the answer
   * is that set's cards: the stamped cards, in input order, when every stored card refers to
   * a stored set.
   */
  method CreateCards(store: TradingCardService, filePath: string, sport: Sport,
                     cards: seq<LlmCard>, currentYear: string) returns (r: seq<Card>)
    requires store.Valid()
    modifies store
    ensures store.Valid()
    ensures store.FindBySourceFile(FileName(filePath)).Some?
    ensures old(store.FindBySourceFile(FileName(filePath))).Some? ==>
      r == [] && store.sets == old(store.sets) && store.cards == old(store.cards)
    ensures old(store.FindBySourceFile(FileName(filePath))).None? ==>
      var s := ImportedSet(NextId(SetIds(old(store.sets))), FileName(filePath), sport, currentYear);
      var saved := Stored(Stamp(cards, s.id), NextId(CardIds(old(store.cards))));
      && (forall t :: t in old(store.sets) ==> t.id < s.id)
      && store.sets == old(store.sets) + [s]
      && store.cards == old(store.cards) + saved
      && r == store.FindBySetId(s.id)
      && (old(store.Linked()) ==> r == saved && store.Linked())
  {
    var fileName := FileName(filePath);
    var existingSet := store.FindBySourceFile(fileName);
    if existingSet.Some? {
      return [];
    }
    var setInfo := GetSetName(fileName, currentYear);
    ghost var linked := store.Linked();
    ghost var oldSets := store.sets;
    ghost var oldCards := store.cards;
    assert linked ==> forall c :: c in oldCards ==> exists t :: t in oldSets && t.id == c.setId;
    var newSet := store.CreateSet(NewSet(setInfo.name, setInfo.year, fileName, SportName(sport)));
    assert newSet == ImportedSet(NextId(SetIds(oldSets)), fileName, sport, currentYear);
    var setId := newSet.id;
    var cardsToInsert := Stamp(cards, setId);
    assert forall d :: d in cardsToInsert ==> d.setId == setId;
    assert newSet in store.sets;
    var savedCards := store.CreateCards(cardsToInsert);
    r := store.FindBySetId(setId);
    if linked {
      StoredSetIds(cardsToInsert, NextId(CardIds(oldCards)), setId);
      FreshSetCards(oldSets, oldCards, savedCards, setId);
    }
  }

  /** Importing the same file twice: the second call changes nothing and answers []. */
  method ImportTwice(store: TradingCardService, filePath: string, sport: Sport,
                     cards: seq<LlmCard>, currentYear: string) returns (first: seq<Card>, second: seq<Card>)
    requires store.Valid()
    modifies store
    ensures second == []
    ensures store.FindBySourceFile(FileName(filePath)).Some?
    ensures old(store.FindBySourceFile(FileName(filePath))).None? ==>
      |store.sets| == |old(store.sets)| + 1 && |store.cards| == |old(store.cards)| + |cards|
  {
    first := CreateCards(store, filePath, sport, cards, currentYear);
    second := CreateCards(store, filePath, sport, cards, currentYear);
  }
}
