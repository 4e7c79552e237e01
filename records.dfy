/**
 * The rows of the two tables, the row id rule, and the pieces of `getSetStats` shared by
 * both versions of the store: `[...new Set(xs)]` and the set-table look-ups.
 */
module Records {
  import opened Wrappers

  /** A row of the `sets` table. */
  datatype CardSet = CardSet(id: int, name: string, year: string, sourceFile: string, sport: string)

  /** `CreateSetData`: a set before it has an id. */
  datatype NewSet = NewSet(name: string, year: string, sourceFile: string, sport: string)

  /** `SetStats`. */
  datatype SetStats = SetStats(cardSet: CardSet, totalCards: nat, uniqueCardTypes: nat,
                               uniquePlayers: nat, cardTypes: seq<string>, players: seq<string>)

  /** The number of players `getSetStats` previews. */
  const PreviewLimit := 10

  function SetOf(id: int, data: NewSet): CardSet {
    CardSet(id, data.name, data.year, data.sourceFile, data.sport)
  }

  // ---------------------------------------------------------------------------
  // Row ids
  // ---------------------------------------------------------------------------

  /** The row ids of a table are positive and increase along it. */
  predicate IdsIncrease(ids: seq<int>) {
    (forall i :: 0 <= i < |ids| ==> ids[i] > 0)
    && (forall i, j :: 0 <= i < j < |ids| ==> ids[i] < ids[j])
  }

  /** The id SQLite gives the next row of a table with an integer primary key: one more
      than the largest id present, and 1 for an empty table. */
  function NextId(ids: seq<int>): (n: int)
    ensures n > 0 && forall i :: 0 <= i < |ids| ==> ids[i] < n
  {
    if ids == [] then 1
    else
      var m := NextId(ids[..|ids| - 1]);
      if ids[|ids| - 1] < m then m else ids[|ids| - 1] + 1
  }

  /** The next id is the smallest positive number above every id present. */
  lemma {:induction false} NextIdLeast(ids: seq<int>)
    ensures NextId(ids) == 1 || NextId(ids) - 1 in ids
  {
    if ids != [] {
      NextIdLeast(ids[..|ids| - 1]);
      var m := NextId(ids[..|ids| - 1]);
      if m != 1 {
        assert m - 1 in ids[..|ids| - 1];
        var i :| 0 <= i < |ids| - 1 && ids[..|ids| - 1][i] == m - 1;
        assert ids[i] == m - 1;
      }
    }
  }

  /** Appending a row with the next id keeps the ids increasing. */
  lemma NextIdIncreases(ids: seq<int>)
    requires IdsIncrease(ids)
    ensures IdsIncrease(ids + [NextId(ids)])
  {
  }

  function SetIds(sets: seq<CardSet>): (r: seq<int>)
    ensures |r| == |sets| && forall i :: 0 <= i < |sets| ==> r[i] == sets[i].id
  {
    seq(|sets|, i requires 0 <= i < |sets| => sets[i].id)
  }

  // ---------------------------------------------------------------------------
  // Set look-ups: `const [set] = await db.select().from(sets).where(...)`
  // ---------------------------------------------------------------------------

  /** The first set whose source file is `sourceFile`. */
  function FirstBySourceFile(sets: seq<CardSet>, sourceFile: string): (r: Option<CardSet>)
    ensures r.Some? <==> exists s :: s in sets && s.sourceFile == sourceFile
    ensures r.Some? ==> r.value in sets && r.value.sourceFile == sourceFile
    ensures r.Some? ==> exists i :: 0 <= i < |sets| && sets[i] == r.value &&
                                    (forall j :: 0 <= j < i ==> sets[j].sourceFile != sourceFile)
  {
    if sets == [] then None
    else if sets[0].sourceFile == sourceFile then Some(sets[0])
    else
      var r := FirstBySourceFile(sets[1..], sourceFile);
      assert forall i :: 0 < i < |sets| ==> sets[i] == sets[1..][i - 1];
      r
  }

  /** The set with id `id`. */
  function FirstById(sets: seq<CardSet>, id: int): (r: Option<CardSet>)
    ensures r.Some? <==> exists s :: s in sets && s.id == id
    ensures r.Some? ==> r.value in sets && r.value.id == id
  {
    if sets == [] then None
    else if sets[0].id == id then Some(sets[0])
    else
      var r := FirstById(sets[1..], id);
      assert forall i :: 0 < i < |sets| ==> sets[i] == sets[1..][i - 1];
      r
  }

  /** With unique ids, looking up a stored set's id finds that set. */
  lemma FirstByIdFinds(sets: seq<CardSet>, s: CardSet)
    requires SetIdsIncrease(sets) && s in sets
    ensures FirstById(sets, s.id) == Some(s)
  {
    var r := FirstById(sets, s.id).value;
    var i :| 0 <= i < |sets| && sets[i] == s;
    var j :| 0 <= j < |sets| && sets[j] == r;
  }

  /** The sets other than the one with id `id`, in their order. */
  function SetsWithout(sets: seq<CardSet>, id: int): (r: seq<CardSet>)
    ensures forall s :: s in r <==> s in sets && s.id != id
    ensures |r| <= |sets|
  {
    if sets == [] then []
    else if sets[0].id == id then SetsWithout(sets[1..], id)
    else [sets[0]] + SetsWithout(sets[1..], id)
  }

  /** The ids of the sets are positive and increase along the table. */
  predicate SetIdsIncrease(sets: seq<CardSet>) {
    (forall i :: 0 <= i < |sets| ==> sets[i].id > 0)
    && (forall i, j :: 0 <= i < j < |sets| ==> sets[i].id < sets[j].id)
  }

  /** Removing rows keeps the ids increasing. */
  lemma {:induction false} SetsWithoutIncrease(sets: seq<CardSet>, id: int)
    requires SetIdsIncrease(sets)
    ensures SetIdsIncrease(SetsWithout(sets, id))
  {
    if sets != [] {
      SetsWithoutIncrease(sets[1..], id);
      var r := SetsWithout(sets[1..], id);
      if sets[0].id != id {
        forall s | s in r ensures sets[0].id < s.id {
          var i :| 0 <= i < |sets[1..]| && sets[1..][i] == s;
        }
        assert SetsWithout(sets, id) == [sets[0]] + r;
      }
    }
  }

  // ---------------------------------------------------------------------------
  // `[...new Set(xs)]`
  // ---------------------------------------------------------------------------

  predicate NoDuplicates(xs: seq<string>) {
    forall i, j :: 0 <= i < j < |xs| ==> xs[i] != xs[j]
  }

  /** The elements of `xs`, each once, in the order they are first met. */
  function Distinct(xs: seq<string>): (r: seq<string>)
    ensures NoDuplicates(r)
    ensures forall x :: x in r <==> x in xs
    ensures |r| <= |xs|
  {
    if xs == [] then []
    else
      var d := Distinct(xs[..|xs| - 1]);
      var x := xs[|xs| - 1];
      assert forall y :: y in xs <==> y in xs[..|xs| - 1] || y == x;
      if x in d then d else d + [x]
  }

  /** The position where `x` first occurs in `xs`. */
  function IndexOf(xs: seq<string>, x: string): (k: nat)
    requires x in xs
    ensures k < |xs| && xs[k] == x && x !in xs[..k]
  {
    if xs[0] == x then 0
    else
      var k := IndexOf(xs[1..], x);
      assert xs[..k + 1] == [xs[0]] + xs[1..][..k];
      k + 1
  }

  lemma IndexOfPrefix(xs: seq<string>, n: nat, x: string)
    requires n <= |xs| && x in xs[..n]
    ensures x in xs && IndexOf(xs, x) == IndexOf(xs[..n], x)
  {
    var k := IndexOf(xs[..n], x);
    assert xs[..n][..k] == xs[..k];
  }

  /** First-encounter order: of two distinct elements, the one met first in `xs` comes
      first. */
  lemma {:induction false} DistinctOrder(xs: seq<string>)
    ensures forall i, j :: 0 <= i < j < |Distinct(xs)| ==>
      IndexOf(xs, Distinct(xs)[i]) < IndexOf(xs, Distinct(xs)[j])
  {
    if xs != [] {
      var n := |xs| - 1;
      var d := Distinct(xs[..n]);
      DistinctOrder(xs[..n]);
      var r := Distinct(xs);
      forall i, j | 0 <= i < j < |r|
        ensures IndexOf(xs, r[i]) < IndexOf(xs, r[j])
      {
        IndexOfPrefix(xs, n, r[i]);
        if j < |d| {
          IndexOfPrefix(xs, n, r[j]);
        } else {
          assert r[j] == xs[n] && r[j] !in xs[..n];
        }
      }
    }
  }

  /** Taking more of `xs` extends its distinct elements: the order never changes. */
  lemma {:induction false} DistinctPrefix(xs: seq<string>, n: nat)
    requires n <= |xs|
    ensures Distinct(xs[..n]) <= Distinct(xs)
    decreases |xs| - n
  {
    if n < |xs| {
      DistinctPrefix(xs, n + 1);
      assert xs[..n + 1][..n] == xs[..n];
    } else {
      assert xs[..n] == xs;
    }
  }

  /** `[...new Set(xs)].length` is the number of different values in `xs`. */
  lemma DistinctCount(xs: seq<string>)
    ensures |Distinct(xs)| == |set x | x in xs|
  {
    var r := Distinct(xs);
    NoDuplicatesCount(r);
    assert (set x | x in r) == (set x | x in xs);
  }

  lemma {:induction false} NoDuplicatesCount(r: seq<string>)
    requires NoDuplicates(r)
    ensures |set x | x in r| == |r|
  {
    if r != [] {
      var n := |r| - 1;
      NoDuplicatesCount(r[..n]);
      assert (set x | x in r) == (set x | x in r[..n]) + {r[n]};
      assert r[n] !in (set x | x in r[..n]);
    }
  }

  /** `[...new Set(xs)]` of a duplicate-free sequence is the sequence. */
  lemma {:induction false} DistinctOfDistinct(xs: seq<string>)
    requires NoDuplicates(xs)
    ensures Distinct(xs) == xs
  {
    if xs != [] {
      var n := |xs| - 1;
      DistinctOfDistinct(xs[..n]);
      assert xs[..n] + [xs[n]] == xs;
    }
  }

  // ---------------------------------------------------------------------------
  // getSetStats
  // ---------------------------------------------------------------------------

  /** The statistics of `cardSet` whose cards, in table order, have the card types `types`
      and the player names `players`. */
  function StatsOf(cardSet: CardSet, types: seq<string>, players: seq<string>): (r: SetStats)
    requires |types| == |players|
    ensures r.cardSet == cardSet && r.totalCards == |types|
    ensures r.cardTypes == Distinct(types) && r.uniqueCardTypes == |set t | t in types|
    ensures r.uniquePlayers == |set p | p in players|
    ensures |r.players| <= PreviewLimit && r.players <= Distinct(players)
    ensures |r.players| == if r.uniquePlayers < PreviewLimit then r.uniquePlayers else PreviewLimit
  {
    DistinctCount(types);
    DistinctCount(players);
    var ps := Distinct(players);
    SetStats(cardSet, |types|, |Distinct(types)|, |ps|, Distinct(types),
             if |ps| <= PreviewLimit then ps else ps[..PreviewLimit])
  }
}
