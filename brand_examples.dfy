/**
 * The brand examples of the unit tests, each derived from the general lemmas.
 */
module BrandExamples {
  import opened Wrappers
  import opened Text
  import opened Brands

  lemma SplitThreeWords(a: string, b: string, c: string)
    requires |a| > 0 && NoSpace(a) && |b| > 0 && NoSpace(b) && NoSpace(c)
    ensures SplitOnSpaces(a + " " + b + " " + c) == [a, b, c]
  {
    SplitOnSpacesWord(c);
    SplitOnSpacesCons(b, c);
    SplitOnSpacesCons(a, b + " " + c);
    assert a + " " + b + " " + c == a + " " + (b + " " + c);
  }

  /** A name of three words separated by the blanks at `i` and `j`. */
  lemma ThreeWordsAt(s: string, i: nat, j: nat)
    requires 0 < i && i + 1 < j && j < |s| && s[i] == ' ' && s[j] == ' '
    requires NoSpace(s[..i]) && NoSpace(s[i + 1..j]) && NoSpace(s[j + 1..])
    ensures SplitOnSpaces(s) == [s[..i], s[i + 1..j], s[j + 1..]]
    ensures s[..j] == s[..i] + " " + s[i + 1..j]
  {
    var a, b, c := s[..i], s[i + 1..j], s[j + 1..];
    assert s == a + " " + b + " " + c;
    SplitThreeWords(a, b, c);
  }

  lemma BrandUnknown(s: string)
    requires s == "Unknown Brand Name"
    ensures Brand(s) == "Unknown Brand"
  {
    UnknownNoMatch(s);
    UnknownPieces(s);
    ThreeWordsAt(s, 7, 13);
    var words := SplitOnSpaces(s);
    assert DropYear(words) == words;
    FallbackChoice(words, s);
  }

  lemma UnknownPieces(s: string)
    requires s == "Unknown Brand Name"
    ensures s[7] == ' ' && s[13] == ' ' && |s| == 18
    ensures NoSpace(s[..7]) && NoSpace(s[8..13]) && NoSpace(s[14..])
    ensures !IsYear(s[..7]) && Lower(s[8..13]) !in NonBrandWords && s[..13] == "Unknown Brand"
  {
    assert Lower(s[8..13]) == "brand";
  }

  lemma UnknownNoMatch(s: string)
    requires s == "Unknown Brand Name"
    ensures FirstMatchFrom(BrandPatterns, s, 0) == None
  {
    BrandPatternsShaped();
    assert LowerChar(s[0]) == 'u' && LowerChar(s[1]) == 'n';
    forall k | 0 <= k < |BrandPatterns|
      ensures MatchEnd(BrandPatterns[k], s, 0).None?
    {
      FirstWordOf(k);
      if BrandPatterns[k][0] == Word("Upper") {
        LetterMismatch(BrandPatterns[k], s, 1);
      } else {
        LetterMismatch(BrandPatterns[k], s, 0);
      }
    }
    NoFirstMatch(BrandPatterns, s);
  }

  lemma BrandSeason(s: string)
    requires s == "2024-25 Panini Prizm Basketball"
    ensures Brand(s) == "Panini Prizm"
  {
    var y, rest := SeasonSplit(s);
    YearThenFallback(y, rest);
    SeasonRest(rest, s);
  }

  lemma SeasonSplit(s: string) returns (y: string, rest: string)
    requires s == "2024-25 Panini Prizm Basketball"
    ensures s == y + " " + rest && IsYear(y) && rest == "Panini Prizm Basketball"
  {
    y, rest := s[..7], s[8..];
    assert y == "2024-25" && rest == "Panini Prizm Basketball";
    SplitAtBlank(s, 7);
  }

  /** A name made of a year word and a rest that starts with neither a blank nor a letter
      of its own goes to the heuristic on the words of the rest. */
  lemma YearThenFallback(y: string, rest: string)
    requires IsYear(y) && rest != [] && !IsSpace(rest[0])
    ensures Brand(y + " " + rest) == Fallback(SplitOnSpaces(rest), y + " " + rest)
  {
    BrandPatternsShaped();
    YearWordSkipped(BrandPatterns, y, rest);
  }

  lemma SeasonRest(rest: string, whole: string)
    requires rest == "Panini Prizm Basketball"
    ensures Fallback(SplitOnSpaces(rest), whole) == "Panini Prizm"
  {
    SeasonRestPieces(rest);
    ThreeWordsAt(rest, 6, 12);
    FallbackChoice(SplitOnSpaces(rest), whole);
  }

  lemma SeasonRestPieces(rest: string)
    requires rest == "Panini Prizm Basketball"
    ensures rest[6] == ' ' && rest[12] == ' ' && |rest| == 23
    ensures NoSpace(rest[..6]) && NoSpace(rest[7..12]) && NoSpace(rest[13..])
    ensures Lower(rest[7..12]) !in NonBrandWords && rest[..12] == "Panini Prizm"
  {
    assert Lower(rest[7..12]) == "prizm";
  }

  /** The first word of each brand pattern. */
  lemma FirstWordOf(k: nat)
    requires k < |BrandPatterns|
    ensures var x := BrandPatterns[k][0];
      x == Word("Panini") || x == Word("Topps") || x == Word("Donruss") || x == Word("Upper")
      || x == Word("Leaf") || x == Word("Score") || x == Word("Bowman")
    ensures k < 9 ==> BrandPatterns[k][0] == Word("Panini")
  {
    if k < 9 {
      assert BrandPatterns[k] == PaniniPatterns[k];
    } else if k < 15 {
      assert BrandPatterns[k] == ToppsPatterns[k - 9];
    } else if k < 19 {
      assert BrandPatterns[k] == DonrussPatterns[k - 15];
    } else if k < 23 {
      assert BrandPatterns[k] == UpperDeckPatterns[k - 19];
    } else if k < 26 {
      assert BrandPatterns[k] == LeafPatterns[k - 23];
    } else if k < 27 {
      assert BrandPatterns[k] == ScorePatterns[k - 26];
    } else {
      assert BrandPatterns[k] == BowmanPatterns[k - 27];
    }
  }

  /** A pattern whose first word differs from the name at position `i`, ignoring case,
      does not match. */
  lemma LetterMismatch(p: Pattern, s: string, i: nat)
    requires p != [] && p[0].Word? && i < |p[0].text| && i < |s|
    requires LowerChar(s[i]) != LowerChar(p[0].text[i])
    ensures MatchEnd(p, s, 0).None?
  {
    assert s[0..] == s;
    if |p[0].text| <= |s| {
      assert s[..|p[0].text|][i] == s[i];
    }
  }

  lemma BrandToppsChrome(s: string)
    requires s == "Topps Chrome"
    ensures Brand(s) == s
  {
    ChromeMatches(s);
    BrandPatternsShaped();
    assert LowerChar(s[0]) == 't';
    forall m | 0 <= m < 9
      ensures MatchEnd(BrandPatterns[m], s, 0).None?
    {
      FirstWordOf(m);
      LetterMismatch(BrandPatterns[m], s, 0);
    }
    BrandAt(BrandPatterns, s, 9, 12);
    assert s[..12] == s;
  }

  lemma ChromeMatches(s: string)
    requires s == "Topps Chrome"
    ensures MatchEnd(BrandPatterns[9], s, 0) == Some(12)
  {
    var p := BrandPatterns[9];
    assert p == [Word("Topps"), Blanks, Word("Chrome")];
    assert s[..5] == "Topps";
    assert s[6..][..6] == "Chrome";
    assert s[6..][6..] == [];
    assert Spells([Word("Chrome")], s[6..]);
    assert s[5..][1..] == s[6..];
    assert SpellsAfterBlanks([Word("Chrome")], s[5..]);
    assert p[1..][1..] == [Word("Chrome")];
    assert Spells(p[1..], s[5..]);
    assert Spells(p, s);
    assert s[0..12] == s;
    BrandPatternsShaped();
    MatchEndComplete(p, s, 0, 12);
  }

  lemma BrandToppsStadiumClub(s: string)
    requires s == "Topps Stadium Club"
    ensures Brand(s) == s
  {
    StadiumClubMatches(s);
    NoChrome(s);
    assert LowerChar(s[0]) == 't';
    NoneBeforeTen(s);
    BrandPatternsShaped();
    BrandAt(BrandPatterns, s, 10, 18);
    assert s[..18] == s;
  }

  /** A name that pattern index 9 and the Panini patterns fail on matches no pattern before
      index 10. */
  lemma NoneBeforeTen(s: string)
    requires s != [] && LowerChar(s[0]) != 'p' && MatchEnd(BrandPatterns[9], s, 0).None?
    ensures forall m :: 0 <= m < 10 ==> MatchEnd(BrandPatterns[m], s, 0).None?
  {
    NoPaniniPattern(s);
  }

  /** A name that does not begin with a 'p' matches none of the nine Panini patterns. */
  lemma NoPaniniPattern(s: string)
    requires s != [] && LowerChar(s[0]) != 'p'
    ensures forall m :: 0 <= m < 9 ==> MatchEnd(BrandPatterns[m], s, 0).None?
  {
    forall m | 0 <= m < 9
      ensures MatchEnd(BrandPatterns[m], s, 0).None?
    {
      FirstWordOf(m);
      LetterMismatch(BrandPatterns[m], s, 0);
    }
  }

  lemma StadiumClubMatches(s: string)
    requires s == "Topps Stadium Club"
    ensures MatchEnd(BrandPatterns[10], s, 0) == Some(18)
  {
    var p := BrandPatterns[10];
    assert p == [Word("Topps"), Blanks, Word("Stadium"), Blanks, Word("Club")];
    var q := [Word("Stadium"), Blanks, Word("Club")];
    assert p[1..][1..] == q;
    StadiumClubSpells(s[5..], q);
    assert s[..5] == "Topps";
    assert Spells(p[1..], s[5..]);
    assert Spells(p, s);
    assert s[0..18] == s;
    BrandPatternsShaped();
    MatchEndComplete(p, s, 0, 18);
  }

  /** The text after "Topps" spells the rest of the Stadium Club pattern. */
  lemma StadiumClubSpells(t: string, q: Pattern)
    requires t == " Stadium Club" && q == [Word("Stadium"), Blanks, Word("Club")]
    ensures SpellsAfterBlanks(q, t)
  {
    assert t[9..][..4] == "Club";
    assert t[9..][4..] == [];
    assert Spells([Word("Club")], t[9..]);
    assert t[8..][1..] == t[9..];
    assert SpellsAfterBlanks([Word("Club")], t[8..]);
    assert q[1..][1..] == [Word("Club")];
    assert t[1..][..7] == "Stadium";
    assert t[1..][7..] == t[8..];
    assert Spells(q, t[1..]);
  }

  /** "Topps Chrome" is not a prefix of "Topps Stadium Club". */
  lemma NoChrome(s: string)
    requires s == "Topps Stadium Club"
    ensures MatchEnd(BrandPatterns[9], s, 0).None?
  {
    var p := BrandPatterns[9];
    assert p == [Word("Topps"), Blanks, Word("Chrome")];
    var q := [Word("Chrome")];
    assert p[1..] == [Blanks] + q && ([Blanks] + q)[1..] == q;
    assert s[6..][0] == 'S';
    assert TrimStart(s[6..]) == s[6..];
    assert s[5..][1..] == s[6..];
    assert BlanksEnd(q, s, 5) == MatchEnd(q, s, 6);
    assert MatchEnd(q, s, 6) == None;
  }

  lemma BrandKeepsCase(s: string)
    requires s == "PANINI PRIZM"
    ensures Brand(s) == s
  {
    PrizmMatches(s);
    NoHoops(s);
    BrandPatternsShaped();
    forall m | 0 <= m < 1
      ensures MatchEnd(BrandPatterns[m], s, 0).None?
    {
      assert m == 0;
    }
    BrandAt(BrandPatterns, s, 1, 12);
    assert s[..12] == s;
  }

  lemma PrizmMatches(s: string)
    requires s == "PANINI PRIZM"
    ensures MatchEnd(BrandPatterns[1], s, 0) == Some(12)
  {
    var p := BrandPatterns[1];
    assert p == [Word("Panini"), Blanks, Word("Prizm")];
    assert s[..6] == "PANINI";
    assert s[7..][..5] == "PRIZM";
    assert s[7..][5..] == [];
    assert Spells([Word("Prizm")], s[7..]);
    assert s[6..][1..] == s[7..];
    assert SpellsAfterBlanks([Word("Prizm")], s[6..]);
    assert p[1..][1..] == [Word("Prizm")];
    assert Spells(p[1..], s[6..]);
    assert Spells(p, s);
    assert s[0..12] == s;
    BrandPatternsShaped();
    MatchEndComplete(p, s, 0, 12);
  }

  lemma NoHoops(s: string)
    requires s == "PANINI PRIZM"
    ensures MatchEnd(BrandPatterns[0], s, 0).None?
  {
    var p := BrandPatterns[0];
    assert p == [Word("Panini"), Blanks, OptionalWord("NBA"), Word("Hoops")];
    var q := [OptionalWord("NBA"), Word("Hoops")];
    assert p[1..] == [Blanks] + q && ([Blanks] + q)[1..] == q && q[1..] == [Word("Hoops")];
    assert s[7..][0] == 'P';
    assert TrimStart(s[7..]) == s[7..];
    assert s[6..][1..] == s[7..];
    assert BlanksEnd(q, s, 6) == MatchEnd(q, s, 7);
    assert MatchEnd(q, s, 7) == None;
  }

  lemma NormalizeTwoWords(a: string, b: string)
    requires |a| > 0 && NoSpace(a) && |b| > 0 && NoSpace(b)
    ensures NormalizeBrand(a + " " + b) == CapitalizeFirst(Lower(a)) + " " + CapitalizeFirst(Lower(b))
  {
    assert a + " " + b == Join([a, b], ' ');
    WordsJoin([a, b]);
    NormalizeBrandIsTitledWords(a + " " + b);
  }

  lemma NormalizeUpperCase(s: string)
    requires s == "DONRUSS OPTIC"
    ensures NormalizeBrand(s) == "Donruss Optic"
  {
    var a, b := s[..7], s[8..];
    assert a == "DONRUSS" && b == "OPTIC";
    SplitAtBlank(s, 7);
    TitleWordOf(a, "donruss", "Donruss");
    TitleWordOf(b, "optic", "Optic");
    var r := "Donruss Optic";
    assert r[..7] == "Donruss" && r[8..] == "Optic";
    SplitAtBlank(r, 7);
    NormalizeTwoTitled(a, b, r[..7], r[8..]);
  }

  /** One word of a test vector: it has no space, and its lower-cased and title-cased forms. */
  lemma TitleWordOf(w: string, lower: string, title: string)
    requires (w == "DONRUSS" && lower == "donruss" && title == "Donruss")
          || (w == "OPTIC" && lower == "optic" && title == "Optic")
          || (w == "Topps" && lower == "topps" && title == "Topps")
          || (w == "Chrome" && lower == "chrome" && title == "Chrome")
    ensures |w| > 0 && NoSpace(w) && CapitalizeFirst(Lower(w)) == title
  {
    LiteralNoSpace(w);
    LiteralLower(w, lower);
    LiteralCapitalize(lower, title);
  }

  lemma LiteralNoSpace(w: string)
    requires w == "DONRUSS" || w == "OPTIC" || w == "Topps" || w == "Chrome"
    ensures |w| > 0 && NoSpace(w)
  {
  }

  lemma LiteralLower(w: string, lower: string)
    requires (w == "DONRUSS" && lower == "donruss") || (w == "OPTIC" && lower == "optic")
          || (w == "Topps" && lower == "topps") || (w == "Chrome" && lower == "chrome")
    ensures Lower(w) == lower
  {
  }

  lemma LiteralCapitalize(lower: string, title: string)
    requires (lower == "donruss" && title == "Donruss") || (lower == "optic" && title == "Optic")
          || (lower == "topps" && title == "Topps") || (lower == "chrome" && title == "Chrome")
    ensures CapitalizeFirst(lower) == title
  {
  }

  lemma NormalizeTwoTitled(a: string, b: string, ta: string, tb: string)
    requires |a| > 0 && NoSpace(a) && |b| > 0 && NoSpace(b)
    requires CapitalizeFirst(Lower(a)) == ta && CapitalizeFirst(Lower(b)) == tb
    ensures NormalizeBrand(a + " " + b) == ta + " " + tb
  {
    NormalizeTwoWords(a, b);
  }

  lemma NormalizePadded(s: string)
    requires s == "  Topps   Chrome  "
    ensures NormalizeBrand(s) == "Topps Chrome"
  {
    var t := PaddedWords(s);
    NormalizeBrandByWords(s, t);
    NormalizeToppsChrome(t);
  }

  lemma NormalizeToppsChrome(t: string)
    requires t == "Topps Chrome"
    ensures NormalizeBrand(t) == t
  {
    var a, b := t[..5], t[6..];
    assert a == "Topps" && b == "Chrome";
    SplitAtBlank(t, 5);
    TitleWordOf(a, "topps", "Topps");
    TitleWordOf(b, "chrome", "Chrome");
    NormalizeTwoTitled(a, b, "Topps", "Chrome");
  }

  lemma PaddedWords(s: string) returns (t: string)
    requires s == "  Topps   Chrome  "
    ensures t == "Topps Chrome" && Words(s) == Words(t)
  {
    PaddedPieces(s);
    var a, b := s[2..7], s[10..16];
    FivePieces(s, 2, 7, 10, 16);
    LiteralNoSpace(a);
    LiteralNoSpace(b);
    TwoWords(s[..2], a, s[7..10], b, s[16..]);
    t := "Topps Chrome";
    PlainPieces(t);
    SplitAtBlank(t, 5);
    LiteralNoSpace(t[..5]);
    LiteralNoSpace(t[6..]);
    LiteralSpaces("");
    LiteralSpaces(" ");
    TwoWords("", t[..5], " ", t[6..], "");
    assert t == "" + t[..5] + " " + t[6..] + "";
  }

  lemma PaddedPieces(s: string)
    requires s == "  Topps   Chrome  "
    ensures |s| == 18 && s[2..7] == "Topps" && s[10..16] == "Chrome"
    ensures AllSpace(s[..2]) && AllSpace(s[7..10]) && |s[7..10]| > 0 && AllSpace(s[16..])
  {
    assert s[..2] == "  " && s[7..10] == "   " && s[16..] == "  ";
    LiteralSpaces(s[..2]);
    LiteralSpaces(s[7..10]);
    LiteralSpaces(s[16..]);
  }

  lemma PlainPieces(t: string)
    requires t == "Topps Chrome"
    ensures |t| == 12 && t[..5] == "Topps" && t[5] == ' ' && t[6..] == "Chrome"
  {
  }

  lemma FivePieces(s: string, i: nat, j: nat, k: nat, l: nat)
    requires i <= j <= k <= l <= |s|
    ensures s == s[..i] + s[i..j] + s[j..k] + s[k..l] + s[l..]
  {
  }

  lemma LiteralSpaces(sp: string)
    requires sp == "" || sp == " " || sp == "  " || sp == "   "
    ensures AllSpace(sp)
  {
  }

  /** Two words, with any runs of white space around and between them. */
  lemma TwoWords(sp1: string, a: string, sp2: string, b: string, sp3: string)
    requires AllSpace(sp1) && AllSpace(sp2) && AllSpace(sp3) && |sp2| > 0
    requires |a| > 0 && NoSpace(a) && |b| > 0 && NoSpace(b)
    ensures Words(sp1 + a + sp2 + b + sp3) == [a, b]
  {
    var rest := sp2 + b + sp3;
    assert rest[0] == sp2[0];
    assert sp1 + a + sp2 + b + sp3 == sp1 + a + rest;
    WordsAfterSpaces(sp1, a, rest);
    WordsAfterSpaces(sp2, b, sp3);
    WordsOfSpaces(sp3);
  }
}
