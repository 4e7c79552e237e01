/**
 * The file names of the `getSetName` unit tests, each parsed by the model.
 */
module SetNameExamples {
  import opened Wrappers
  import opened Text
  import opened SetNames

  /** `2024-25-Panini-NBA-Hoops-Basketball-Checklist.xlsx`: the season and three words. */
  lemma SeasonChecklist(currentYear: string)
    ensures GetSetName("2024-25" + "-" + "Panini-NBA-Hoops" + "-Basketball-Checklist" + "." + "xlsx",
                       currentYear)
         == SetInfo("2024-25", "Panini NBA Hoops")
  {
    Pieces("2024-25", "Panini-NBA-Hoops", "-Basketball-Checklist", "xlsx");
    RangeRoundTrip("2024-25", "Panini-NBA-Hoops", "-Basketball-Checklist", "xlsx", currentYear);
    SpacedName("Panini-NBA-Hoops", "Panini NBA Hoops");
  }

  /** `2024-Panini-Prizm-Football-Checklist.xlsx`: a single year. */
  lemma YearChecklist(currentYear: string)
    ensures GetSetName("2024" + "-" + "Panini-Prizm" + "-Football-Checklist" + "." + "xlsx", currentYear)
         == SetInfo("2024", "Panini Prizm")
  {
    Pieces("2024", "Panini-Prizm", "-Football-Checklist", "xlsx");
    SingleRoundTrip("2024", "Panini-Prizm", "-Football-Checklist", "xlsx", currentYear);
    SpacedName("Panini-Prizm", "Panini Prizm");
  }

  /** `2023-Topps-Chrome-Basketball-Checklist.xlsx`: another brand. */
  lemma OtherBrandChecklist(currentYear: string)
    ensures GetSetName("2023" + "-" + "Topps-Chrome" + "-Basketball-Checklist" + "." + "xlsx", currentYear)
         == SetInfo("2023", "Topps Chrome")
  {
    Pieces("2023", "Topps-Chrome", "-Basketball-Checklist", "xlsx");
    SingleRoundTrip("2023", "Topps-Chrome", "-Basketball-Checklist", "xlsx", currentYear);
    SpacedName("Topps-Chrome", "Topps Chrome");
  }

  /** `2023-24-Upper-Deck-Series-1-Basketball-Checklist.xlsx`: a season and four words. */
  lemma OtherSeasonChecklist(currentYear: string)
    ensures GetSetName("2023-24" + "-" + "Upper-Deck-Series-1" + "-Basketball-Checklist" + "." + "xlsx",
                       currentYear)
         == SetInfo("2023-24", "Upper Deck Series 1")
  {
    Pieces("2023-24", "Upper-Deck-Series-1", "-Basketball-Checklist", "xlsx");
    RangeRoundTrip("2023-24", "Upper-Deck-Series-1", "-Basketball-Checklist", "xlsx", currentYear);
    SpacedName("Upper-Deck-Series-1", "Upper Deck Series 1");
  }

  /** `./spreadsheet-downloads/2024-25-Panini-NBA-Hoops-Basketball-Checklist.xlsx`: the
      directory is ignored. */
  lemma ChecklistInDirectory(currentYear: string)
    ensures GetSetName("./spreadsheet-downloads" + "/"
                       + ("2024-25" + "-" + "Panini-NBA-Hoops" + "-Basketball-Checklist" + "." + "xlsx"),
                       currentYear)
         == SetInfo("2024-25", "Panini NBA Hoops")
  {
    var file := "2024-25" + "-" + "Panini-NBA-Hoops" + "-Basketball-Checklist" + "." + "xlsx";
    Pieces("2024-25", "Panini-NBA-Hoops", "-Basketball-Checklist", "xlsx");
    NoSlashStem("2024-25", "Panini-NBA-Hoops", "-Basketball-Checklist");
    assert '/' !in file;
    BaseNameIgnoresDirectory("./spreadsheet-downloads", file);
    SeasonChecklist(currentYear);
  }

  /** `random-file-name.xlsx`: no year, so the current year and the whole name. */
  lemma UnrecognisedName(currentYear: string)
    ensures GetSetName("random-file-name" + "." + "xlsx", currentYear)
         == SetInfo(currentYear, "random file name")
  {
    var stem := "random-file-name";
    PlainFile(stem, "xlsx");
    BaseNameOfFile(stem, "xlsx");
    assert !IsDigit(stem[0]);
    YearOfSetName(stem + "." + "xlsx", currentYear);
    SpacedName(stem, "random file name");
  }

  /** `2024-Panini-Donruss-Football.xlsx`: no `-Checklist`, so the fallback pattern,
      whose token run removes the trailing `-Football`. */
  lemma FallbackName(currentYear: string)
    ensures GetSetName("2024-Panini-Donruss-Football" + "." + "xlsx", currentYear)
         == SetInfo("2024", "Panini Donruss")
  {
    var stem := "2024-Panini-Donruss-Football";
    PlainFile(stem, "xlsx");
    BaseNameOfFile(stem, "xlsx");
    FallbackStem(stem);
    FallbackCaptures(stem);
    FallbackSetName(stem[5..][..14]);
  }

  lemma FallbackStem(s: string)
    requires s == "2024-Panini-Donruss-Football"
    ensures RangeMatch(s).None? && SingleMatch(s).None?
    ensures FallbackMatch(s) == Some(Captures(s[..4], s[5..][..14]))
  {
    var rest := s[5..];
    assert rest == "Panini-Donruss-Football";
    NoChecklistTail(rest);
    FallbackStemYear(s);
    DonrussEnd(rest);
    FallbackOfYear(s, 14);
  }

  lemma FallbackCaptures(s: string)
    requires s == "2024-Panini-Donruss-Football"
    ensures s[..4] == "2024" && s[5..][..14] == "Panini-Donruss"
  {
    DonrussName(s[5..]);
  }

  /** A base name `DDDD-rest` with no checklist tail and no season goes to the fallback
      pattern, whose lazy group ends at `m`. */
  lemma FallbackOfYear(s: string, m: nat)
    requires |s| > 5 && IsYear(s[..4]) && s[4] == '-' && !(|s| >= 7 && IsYear(s[..7]))
    requires ChecklistSplit(s[5..]).None? && 1 <= m <= |s[5..]| && LazyEnd(s[5..], 1) == m
    ensures RangeMatch(s).None? && SingleMatch(s).None?
    ensures FallbackMatch(s) == Some(Captures(s[..4], s[5..][..m]))
  {
    assert s[4..][1..] == s[5..];
  }

  lemma FallbackStemYear(s: string)
    requires s == "2024-Panini-Donruss-Football"
    ensures IsYear(s[..4]) && s[4] == '-' && !IsYear(s[..7])
  {
    assert s[5] == 'P';
  }

  lemma DonrussName(rest: string)
    requires rest == "Panini-Donruss-Football"
    ensures rest[..14] == "Panini-Donruss"
  {
  }

  lemma NoChecklistTail(rest: string)
    requires rest == "Panini-Donruss-Football"
    ensures ChecklistSplit(rest).None?
  {
    assert LowerChar(rest[|rest| - 1]) != LowerChar(BasketballChecklist[20]);
    assert LowerChar(rest[|rest| - 1]) != LowerChar(FootballChecklist[18]);
  }

  /** The lazy group stops before `-Football`: no earlier position leaves a token run. */
  lemma DonrussEnd(rest: string)
    requires rest == "Panini-Donruss-Football"
    ensures LazyEnd(rest, 1) == 14
  {
    assert '-' !in rest[1..6];
    assert '-' !in rest[7..14];
    NoHyphenNoTokens(rest, 1, 6);
    DonrussNotToken(rest[6..]);
    NoHyphenNoTokens(rest, 7, 14);
    FootballToken(rest[14..]);
  }

  lemma DonrussNotToken(r: string)
    requires r == "-Donruss-Football"
    ensures !SportTokens(r)
  {
    assert LowerChar(r[1]) == 'd';
  }

  lemma FootballToken(r: string)
    requires r == "-Football"
    ensures SportTokens(r)
  {
    assert r[9..] == [];
  }

  lemma FallbackSetName(m: string)
    requires m == "Panini-Donruss"
    ensures Trim(StripSportWord(Spaced(m))) == "Panini Donruss"
  {
    var t := Spaced(m);
    assert t == "Panini Donruss";
    TrimOfWords(t);
    assert !EndsWithWord(t, "basketball") && !EndsWithWord(t, "football");
    assert !EndsWithWord(t, "checklist");
  }

  lemma TrimOfWords(t: string)
    requires t == "Panini Donruss"
    ensures TrimEnd(t) == t && TrimStart(t) == t
  {
  }

  /** The literal pieces of a file name: a year, a set name without `/`, a tail and an
      extension. */
  lemma Pieces(year: string, name: string, tail: string, ext: string)
    requires year == "2024-25" || year == "2023-24" || year == "2024" || year == "2023"
    requires name == "Panini-NBA-Hoops" || name == "Panini-Prizm" || name == "Topps-Chrome"
          || name == "Upper-Deck-Series-1"
    requires tail == "-Basketball-Checklist" || tail == "-Football-Checklist"
    requires ext == "xlsx"
    ensures IsYear(year) && '/' !in name && ChecklistTail(tail)
    ensures |ext| > 0 && '.' !in ext && '/' !in ext
  {
  }

  /** A file name of the examples without a checklist tail: no '/' in the stem, and an
      extension without '.' or '/'. */
  lemma PlainFile(stem: string, ext: string)
    requires stem == "random-file-name" || stem == "2024-Panini-Donruss-Football"
    requires ext == "xlsx"
    ensures '/' !in stem && |ext| > 0 && '.' !in ext && '/' !in ext
  {
  }

  lemma SpacedName(name: string, spaced: string)
    requires (name == "Panini-NBA-Hoops" && spaced == "Panini NBA Hoops")
          || (name == "Panini-Prizm" && spaced == "Panini Prizm")
          || (name == "Topps-Chrome" && spaced == "Topps Chrome")
          || (name == "Upper-Deck-Series-1" && spaced == "Upper Deck Series 1")
          || (name == "random-file-name" && spaced == "random file name")
    ensures Spaced(name) == spaced
  {
  }
}
