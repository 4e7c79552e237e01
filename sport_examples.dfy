/**
 * The URLs of the `getSport` unit tests, each classified by the model. Each URL is
 * written as a concatenation of short pieces: around its keyword, or around its one
 * `k`, the only place `basketball` could then start.
 */
module SportExamples {
  import opened Text
  import opened Sports

  /** A page about a football set. */
  lemma FootballPage()
    ensures GetSport("https://www.bec" + "k" + ("ett.com/news/" + "2024-panini-prizm-" + "football-cards/"))
         == Football
  {
    var x, y1, y2, y3 := "https://www.bec", "ett.com/news/", "2024-panini-prizm-", "football-cards/";
    LowerNoUpper(x);
    LowerNoUpper(y1);
    LowerNoUpper(y2);
    LowerNoUpper(y3);
    LowerHalves(y1, y2);
    LowerHalves(y1 + y2, y3);
    assert 'k' !in y1 && 'k' !in y2 && 'k' !in y3;
    FootballAroundK(x, y1 + y2 + y3);
  }

  /** A page about a basketball set. */
  lemma BasketballPage()
    ensures GetSport("https://www.beckett.com/news/" + "2024-25-panini-nba-hoops-" + "basketball" + "-cards/")
         == Basketball
  {
    var x1, x2, y := "https://www.beckett.com/news/", "2024-25-panini-nba-hoops-", "-cards/";
    LowerNoUpper(x1);
    LowerNoUpper(x2);
    LowerNoUpper(y);
    LowerNoUpper("basketball");
    LowerHalves(x1, x2);
    LowerHalves(x1 + x2, "basketball");
    LowerHalves(x1 + x2 + "basketball", y);
    KeywordAt(x1 + x2, "basketball", y);
    BasketballIffKeyword(x1 + x2 + "basketball" + y);
  }

  /** Upper-case `FOOTBALL`. */
  lemma FootballUpperCase()
    ensures GetSport("https://bec" + "k" + ("ett.com/" + "FOOTBALL" + "-cards")) == Football
  {
    var x, y1, y3 := "https://bec", "ett.com/", "-cards";
    LowerNoUpper(x);
    LowerNoUpper(y1);
    LowerNoUpper(y3);
    assert Lower("FOOTBALL") == "football";
    LowerAppend(y1, "FOOTBALL");
    LowerAppend(y1 + "FOOTBALL", y3);
    var y := y1 + "football" + y3;
    assert Lower(y1 + "FOOTBALL" + y3) == y;
    LowerNoUpper("k");
    LowerAppend(x, "k");
    LowerAppend(x + "k", y1 + "FOOTBALL" + y3);
    assert Lower(x + "k" + (y1 + "FOOTBALL" + y3)) == x + "k" + y;
    assert 'k' !in y1 && 'k' !in "football" && 'k' !in y3;
    NotBasketballAtK(x, y);
    FootballWhen(x + "k" + (y1 + "FOOTBALL" + y3), x + "k" + y);
  }

  /** Upper-case `BASKETBALL`. */
  lemma BasketballUpperCase()
    ensures GetSport("https://beckett.com/" + "BASKETBALL" + "-cards") == Basketball
  {
    var x, y := "https://beckett.com/", "-cards";
    LowerNoUpper(x);
    LowerNoUpper(y);
    assert Lower("BASKETBALL") == "basketball";
    LowerAppend(x, "BASKETBALL");
    LowerAppend(x + "BASKETBALL", y);
    KeywordAt(x, "basketball", y);
    BasketballIffKeyword(x + "BASKETBALL" + y);
  }

  /** Both keywords: basketball wins. */
  lemma BothKeywords()
    ensures GetSport("https://beckett.com/" + "basketball" + "-vs-football-comparison") == Basketball
  {
    var x, y := "https://beckett.com/", "-vs-football-comparison";
    LowerNoUpper(x);
    LowerNoUpper(y);
    LowerNoUpper("basketball");
    LowerHalves(x, "basketball");
    LowerHalves(x + "basketball", y);
    KeywordAt(x, "basketball", y);
    BasketballIffKeyword(x + "basketball" + y);
  }

  /** Neither keyword: the default, football. */
  lemma NoKeyword()
    ensures GetSport("https://www.beckett.com/" + "news/2024-panini-cards/") == Football
  {
    var x, y := "https://www.beckett.com/", "news/2024-panini-cards/";
    LowerNoUpper(x);
    LowerNoUpper(y);
    LowerHalves(x, y);
    assert 'l' !in x && 'l' !in y;
    AbsentChar(x + y, "basketball", 8);
    FootballWhen(x + y, x + y);
  }

  /** A lower-case URL `x k y` with no other `k` and an `e` two before it. */
  lemma FootballAroundK(x: string, y: string)
    requires Lower(x) == x && Lower(y) == y
    requires |x| >= 3 && x[|x| - 2] == 'e' && 'k' !in x && 'k' !in y
    ensures GetSport(x + "k" + y) == Football
  {
    LowerHalves(x, "k");
    LowerHalves(x + "k", y);
    NotBasketballAtK(x, y);
    FootballWhen(x + "k" + y, x + "k" + y);
  }

  /** A URL whose lower-cased form `l` lacks `basketball` is about football. */
  lemma FootballWhen(url: string, l: string)
    requires Lower(url) == l && !Occurs(l, "basketball")
    ensures GetSport(url) == Football
  {
    FootballOtherwise(url);
  }

  lemma LowerHalves(a: string, b: string)
    requires Lower(a) == a && Lower(b) == b
    ensures Lower(a + b) == a + b
  {
    LowerAppend(a, b);
  }

  lemma KeywordAt(x: string, k: string, y: string)
    ensures OccursAt(x + k + y, k, |x|)
  {
    assert (x + k + y)[|x|..|x| + |k|] == k;
  }

  /** `x k y` with no other `k`, where `basketball` cannot start three before the `k`
      because `x` has an `e` there, not an `a`. */
  lemma NotBasketballAtK(x: string, y: string)
    requires |x| >= 3 && x[|x| - 2] == 'e' && 'k' !in x && 'k' !in y
    ensures !Occurs(x + "k" + y, "basketball")
  {
    var l := x + "k" + y;
    assert l[..|x|] == x && l[|x| + 1..] == y;
    OnlyPlace(l, "basketball", 3, |x|);
    assert l[|x| - 2] == 'e';
  }
}
