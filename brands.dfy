/**
 * Brand extraction from a trading-card set name (`getBrand`) and brand-name
 * normalisation for grouping (`normalizeBrand`).
 *
 * Each regular expression of the brand list is an anchored, case-insensitive pattern
 * made of literal words, `\s+` runs and one optional `(?:word\s+)?` group. Patterns are
 * data here (`Pattern`), `MatchEnd` is the matcher, and `Spells` is the reference
 * meaning the matcher is proved sound and complete against.
 */
module Brands {
  import opened Wrappers
  import opened Text

  /** One element of a brand pattern: a literal word compared without regard to case,
      a `\s+` run, or an optional `(?:word\s+)?` group. */
  datatype Piece = Word(text: string) | Blanks | OptionalWord(text: string)

  type Pattern = seq<Piece>

  predicate IsLetter(c: char) { IsUpperAscii(c) || IsLowerAscii(c) }

  /** The brand patterns, in the order they are tried: Panini, Topps, Donruss, Upper Deck,
      Leaf, Score and stand-alone Bowman. */
  const BrandPatterns: seq<Pattern> :=
    PaniniPatterns + ToppsPatterns + DonrussPatterns + UpperDeckPatterns
    + LeafPatterns + ScorePatterns + BowmanPatterns

  const PaniniPatterns: seq<Pattern> := [
    [Word("Panini"), Blanks, OptionalWord("NBA"), Word("Hoops")],
    [Word("Panini"), Blanks, Word("Prizm")],
    [Word("Panini"), Blanks, Word("Select")],
    [Word("Panini"), Blanks, Word("Contenders")],
    [Word("Panini"), Blanks, Word("Chronicles")],
    [Word("Panini"), Blanks, Word("Mosaic")],
    [Word("Panini"), Blanks, Word("Immaculate")],
    [Word("Panini"), Blanks, Word("National"), Blanks, Word("Treasures")],
    [Word("Panini"), Blanks, Word("Flawless")]
  ]

  const ToppsPatterns: seq<Pattern> := [
    [Word("Topps"), Blanks, Word("Chrome")],
    [Word("Topps"), Blanks, Word("Stadium"), Blanks, Word("Club")],
    [Word("Topps"), Blanks, Word("Finest")],
    [Word("Topps"), Blanks, Word("Heritage")],
    [Word("Topps"), Blanks, Word("Bowman")],
    [Word("Topps")]
  ]

  const DonrussPatterns: seq<Pattern> := [
    [Word("Donruss"), Blanks, Word("Optic")],
    [Word("Donruss"), Blanks, Word("Elite")],
    [Word("Donruss"), Blanks, Word("Rated"), Blanks, Word("Rookies")],
    [Word("Donruss")]
  ]

  const UpperDeckPatterns: seq<Pattern> := [
    [Word("Upper"), Blanks, Word("Deck"), Blanks, Word("SP"), Blanks, Word("Authentic")],
    [Word("Upper"), Blanks, Word("Deck"), Blanks, Word("Artifacts")],
    [Word("Upper"), Blanks, Word("Deck"), Blanks, Word("Black"), Blanks, Word("Diamond")],
    [Word("Upper"), Blanks, Word("Deck")]
  ]

  const LeafPatterns: seq<Pattern> := [
    [Word("Leaf"), Blanks, Word("Metal")],
    [Word("Leaf"), Blanks, Word("Trinity")],
    [Word("Leaf")]
  ]

  const ScorePatterns: seq<Pattern> := [
    [Word("Score")]
  ]

  const BowmanPatterns: seq<Pattern> := [
    [Word("Bowman"), Blanks, Word("Chrome")],
    [Word("Bowman"), Blanks, Word("Sterling")],
    [Word("Bowman")]
  ]

  /** Second words that mark a sub-brand. */
  const SubBrandWords: seq<string> :=
    ["chrome", "optic", "prizm", "select", "hoops", "mosaic", "contenders", "ultra",
     "finest", "heritage"]

  /** Second words that are not part of a brand name. */
  const NonBrandWords: seq<string> :=
    ["basketball", "football", "baseball", "hockey", "cards", "trading", "collection"]

  // ---------------------------------------------------------------------------
  // Matching

  /** The end of the match of `p` that starts at `s[i]`, or None. A run of blanks takes
      all the white space there is and an optional group is tried before it is skipped,
      the regular-expression engine's first choice in both places. */
  function MatchEnd(p: Pattern, s: string, i: nat): (r: Option<nat>)
    requires i <= |s|
    ensures r.Some? ==> i <= r.value <= |s|
    decreases |p|, 1
  {
    if p == [] then Some(i)
    else match p[0]
      case Word(x) =>
        if StartsWithIgnoreCase(s[i..], x) then MatchEnd(p[1..], s, i + |x|) else None
      case Blanks => BlanksEnd(p[1..], s, i)
      case OptionalWord(x) =>
        var m := if StartsWithIgnoreCase(s[i..], x) then BlanksEnd(p[1..], s, i + |x|) else None;
        if m.Some? then m else MatchEnd(p[1..], s, i)
  }

  /** A maximal run of at least one blank at `s[i]`, then `q`. */
  function BlanksEnd(q: Pattern, s: string, i: nat): (r: Option<nat>)
    requires i <= |s|
    ensures r.Some? ==> i < r.value <= |s|
    decreases |q| + 1, 0
  {
    if i < |s| && IsSpace(s[i]) then MatchEnd(q, s, |s| - |TrimStart(s[i..])|) else None
  }

  /** The reference meaning of a pattern: all of `t` is an instance of `p`. */
  ghost predicate Spells(p: Pattern, t: string)
    decreases |p| + |t|, 1
  {
    if p == [] then t == []
    else match p[0]
      case Word(x) => StartsWithIgnoreCase(t, x) && Spells(p[1..], t[|x|..])
      case Blanks => SpellsAfterBlanks(p[1..], t)
      case OptionalWord(x) =>
        (StartsWithIgnoreCase(t, x) && SpellsAfterBlanks(p[1..], t[|x|..])) || Spells(p[1..], t)
  }

  /** `t` is one or more white-space characters followed by an instance of `q`. */
  ghost predicate SpellsAfterBlanks(q: Pattern, t: string)
    decreases |q| + |t| + 1, 0
  {
    t != [] && IsSpace(t[0]) && (Spells(q, t[1..]) || SpellsAfterBlanks(q, t[1..]))
  }

  /** A word or optional word that starts with a letter. */
  predicate LetterFirst(pc: Piece) {
    (pc.Word? || pc.OptionalWord?) && pc.text != [] && IsLetter(pc.text[0])
  }

  /** The shape every brand pattern has, under which greedy matching loses nothing:
      words are not empty, a blank run is followed by something that starts with a
      letter, and an optional word is followed by a word with a different initial. */
  predicate WellFormed(p: Pattern) {
    p == [] || (PieceFits(p) && WellFormed(p[1..]))
  }

  predicate PieceFits(p: Pattern)
    requires p != []
  {
    match p[0]
    case Word(x) => x != []
    case Blanks => |p| >= 2 && LetterFirst(p[1])
    case OptionalWord(x) =>
      LetterFirst(p[0]) && |p| >= 2 && p[1].Word? && LetterFirst(p[1])
      && LowerChar(x[0]) != LowerChar(p[1].text[0])
  }

  /** A brand pattern: well formed, beginning and ending with a word whose first and
      last characters are letters. */
  predicate BrandShaped(p: Pattern) {
    WellFormed(p) && p != [] && p[0].Word? && LetterFirst(p[0]) && LetterLast(p)
  }

  // ---------------------------------------------------------------------------
  // The matcher against its reference

  lemma {:induction false} MatchEndSound(p: Pattern, s: string, i: nat)
    requires i <= |s| && MatchEnd(p, s, i).Some?
    ensures Spells(p, s[i..MatchEnd(p, s, i).value])
    decreases |p|, 2
  {
    var j := MatchEnd(p, s, i).value;
    if p == [] {
      assert s[i..j] == [];
    } else {
      match p[0]
      case Word(x) =>
        WordSound(p, s, i);
      case Blanks =>
        BlanksEndSound(p[1..], s, i);
      case OptionalWord(x) =>
        if StartsWithIgnoreCase(s[i..], x) && BlanksEnd(p[1..], s, i + |x|).Some? {
          TakeSound(p, s, i);
        } else {
          MatchEndSound(p[1..], s, i);
        }
    }
  }

  /** A leading word the matcher took is spelled by the text it consumed. */
  lemma {:induction false} WordSound(p: Pattern, s: string, i: nat)
    requires p != [] && p[0].Word? && i <= |s| && MatchEnd(p, s, i).Some?
    ensures Spells(p, s[i..MatchEnd(p, s, i).value])
    decreases |p|, 0
  {
    var j, x := MatchEnd(p, s, i).value, p[0].text;
    MatchEndSound(p[1..], s, i + |x|);
    assert s[i..j][..|x|] == s[i..][..|x|];
    assert s[i..j][|x|..] == s[i + |x|..j];
  }

  /** An optional word the matcher took, its blanks and the rest spell the text consumed. */
  lemma {:induction false} TakeSound(p: Pattern, s: string, i: nat)
    requires p != [] && p[0].OptionalWord? && i <= |s|
    requires StartsWithIgnoreCase(s[i..], p[0].text)
    requires BlanksEnd(p[1..], s, i + |p[0].text|).Some?
    ensures MatchEnd(p, s, i).Some? && Spells(p, s[i..MatchEnd(p, s, i).value])
    decreases |p|, 1
  {
    var j, x := MatchEnd(p, s, i).value, p[0].text;
    BlanksEndSound(p[1..], s, i + |x|);
    assert s[i..j][..|x|] == s[i..][..|x|];
    assert s[i..j][|x|..] == s[i + |x|..j];
  }

  lemma {:induction false} BlanksEndSound(q: Pattern, s: string, i: nat)
    requires i <= |s| && BlanksEnd(q, s, i).Some?
    ensures SpellsAfterBlanks(q, s[i..BlanksEnd(q, s, i).value])
    decreases |q| + 1, 0
  {
    var e := |s| - |TrimStart(s[i..])|;
    var j := BlanksEnd(q, s, i).value;
    MatchEndSound(q, s, e);
    TrimStartDropsSpaces(s[i..]);
    assert s[i..][..e - i] == s[i..e];
    RunThenSpells(q, s, i, e, j);
  }

  /** Blanks `s[i..e]` followed by an instance `s[e..j]` of `q`. */
  lemma {:induction false} RunThenSpells(q: Pattern, s: string, i: nat, e: nat, j: nat)
    requires i < e <= j <= |s|
    requires AllSpace(s[i..e])
    requires Spells(q, s[e..j])
    ensures SpellsAfterBlanks(q, s[i..j])
    decreases e - i
  {
    assert s[i..j][1..] == s[i + 1..j];
    assert s[i] == s[i..e][0];
    if i + 1 < e {
      assert s[i + 1..e] == s[i..e][1..];
      RunThenSpells(q, s, i + 1, e, j);
    }
  }

  lemma LetterCase(c: char, x: char)
    requires IsLetter(x) && LowerChar(c) == LowerChar(x)
    ensures IsLetter(c) && !IsSpace(c)
  {
  }

  /** An instance of a pattern that starts with a letter starts with a letter. */
  lemma {:induction false} SpellsStart(q: Pattern, t: string)
    requires WellFormed(q) && q != [] && LetterFirst(q[0]) && Spells(q, t)
    ensures t != [] && IsLetter(t[0])
  {
    var x := q[0].text;
    if q[0].Word? || (StartsWithIgnoreCase(t, x) && SpellsAfterBlanks(q[1..], t[|x|..])) {
      assert t[..|x|][0] == t[0];
      LetterCase(t[0], x[0]);
    } else {
      SpellsStart(q[1..], t);
    }
  }

  lemma {:induction false} MatchEndComplete(p: Pattern, s: string, i: nat, j: nat)
    requires WellFormed(p) && i <= j <= |s| && Spells(p, s[i..j])
    ensures MatchEnd(p, s, i) == Some(j)
    decreases |p|, 1, 0
  {
    if p == [] {
      assert |s[i..j]| == 0;
    } else {
      var t := s[i..j];
      match p[0]
      case Word(x) =>
        WordComplete(p, s, i, j);
      case Blanks =>
        BlanksEndComplete(p[1..], s, i, j);
      case OptionalWord(x) =>
        if StartsWithIgnoreCase(t, x) && SpellsAfterBlanks(p[1..], t[|x|..]) {
          TakeComplete(p, s, i, j);
        } else {
          SkipComplete(p, s, i, j);
        }
    }
  }

  /** A leading word: it is matched, then the rest of the pattern. */
  lemma {:induction false} WordComplete(p: Pattern, s: string, i: nat, j: nat)
    requires WellFormed(p) && p != [] && p[0].Word? && i <= j <= |s|
    requires Spells(p, s[i..j])
    ensures MatchEnd(p, s, i) == Some(j)
    decreases |p|, 0, 0
  {
    var t, x := s[i..j], p[0].text;
    assert t[..|x|] == s[i..][..|x|];
    assert t[|x|..] == s[i + |x|..j];
    MatchEndComplete(p[1..], s, i + |x|, j);
  }

  /** A taken optional word: the matcher takes it too, then the blanks and the rest. */
  lemma {:induction false} TakeComplete(p: Pattern, s: string, i: nat, j: nat)
    requires WellFormed(p) && p != [] && p[0].OptionalWord? && i <= j <= |s|
    requires StartsWithIgnoreCase(s[i..j], p[0].text)
    requires SpellsAfterBlanks(p[1..], s[i..j][|p[0].text|..])
    ensures MatchEnd(p, s, i) == Some(j)
    decreases |p|, 0, j - i + 1
  {
    var t, x := s[i..j], p[0].text;
    assert t[..|x|] == s[i..][..|x|];
    assert t[|x|..] == s[i + |x|..j];
    BlanksEndComplete(p[1..], s, i + |x|, j);
  }

  /** A skipped optional word: the word after it has another initial, so the matcher
      cannot take the optional word either. */
  lemma {:induction false} SkipComplete(p: Pattern, s: string, i: nat, j: nat)
    requires WellFormed(p) && p != [] && p[0].OptionalWord? && i <= j <= |s|
    requires Spells(p[1..], s[i..j])
    ensures MatchEnd(p, s, i) == Some(j)
    decreases |p|, 0, 0
  {
    var t, x := s[i..j], p[0].text;
    MatchEndComplete(p[1..], s, i, j);
    var y := p[1].text;
    assert StartsWithIgnoreCase(t, y);
    assert t[..|y|][0] == s[i];
    assert !StartsWithIgnoreCase(s[i..], x) by {
      if |x| <= |s| - i {
        assert s[i..][..|x|][0] == s[i];
      }
    }
  }

  lemma {:induction false} BlanksEndComplete(q: Pattern, s: string, i: nat, j: nat)
    requires WellFormed(q) && q != [] && LetterFirst(q[0])
    requires i <= j <= |s| && SpellsAfterBlanks(q, s[i..j])
    ensures BlanksEnd(q, s, i) == Some(j)
    decreases |q| + 1, 0, j - i
  {
    var t := s[i..j];
    assert t[0] == s[i];
    assert t[1..] == s[i + 1..j];
    assert s[i..][1..] == s[i + 1..];
    if Spells(q, t[1..]) {
      MatchEndComplete(q, s, i + 1, j);
      SpellsStart(q, t[1..]);
      assert s[i + 1..][0] == s[i + 1];
      assert TrimStart(s[i + 1..]) == s[i + 1..];
      assert TrimStart(s[i..]) == TrimStart(s[i + 1..]);
    } else {
      BlanksEndComplete(q, s, i + 1, j);
    }
  }

  /** The last piece is a word whose last character is a letter. */
  predicate LetterLast(p: Pattern) {
    p != [] && p[|p| - 1].Word? && p[|p| - 1].text != []
    && IsLetter(p[|p| - 1].text[|p[|p| - 1].text| - 1])
  }

  /** An instance of a pattern that ends with a letter ends with a letter. */
  lemma {:induction false} SpellsEnd(p: Pattern, t: string)
    requires WellFormed(p) && LetterLast(p) && Spells(p, t)
    ensures t != [] && IsLetter(t[|t| - 1])
    decreases |p| + |t|, 1
  {
    assert |p| >= 2 ==> p[1..][|p| - 2] == p[|p| - 1];
    match p[0]
    case Word(x) =>
      if |p| == 1 {
        assert |t[|x|..]| == 0;
        assert t[..|x|][|x| - 1] == t[|t| - 1];
        LetterCase(t[|t| - 1], x[|x| - 1]);
      } else {
        SpellsEnd(p[1..], t[|x|..]);
        assert t[|x|..][|t[|x|..]| - 1] == t[|t| - 1];
      }
    case Blanks =>
      BlanksSpellsEnd(p[1..], t);
    case OptionalWord(x) =>
      if StartsWithIgnoreCase(t, x) && SpellsAfterBlanks(p[1..], t[|x|..]) {
        BlanksSpellsEnd(p[1..], t[|x|..]);
        assert t[|x|..][|t[|x|..]| - 1] == t[|t| - 1];
      } else {
        SpellsEnd(p[1..], t);
      }
  }

  lemma {:induction false} BlanksSpellsEnd(q: Pattern, t: string)
    requires WellFormed(q) && LetterLast(q) && SpellsAfterBlanks(q, t)
    ensures t != [] && IsLetter(t[|t| - 1])
    decreases |q| + |t| + 1, 0
  {
    if Spells(q, t[1..]) {
      SpellsEnd(q, t[1..]);
    } else {
      BlanksSpellsEnd(q, t[1..]);
    }
    assert t[1..][|t[1..]| - 1] == t[|t| - 1];
  }

  /** Every brand pattern has the shape the matcher relies on. */
  lemma BrandPatternsShaped()
    ensures AllShaped(BrandPatterns) && |BrandPatterns| == 30
  {
    PaniniShaped();
    ToppsShaped();
    DonrussShaped();
    UpperDeckShaped();
    LeafShaped();
    ScoreShaped();
    BowmanShaped();
  }

  lemma PaniniShaped()
    ensures forall k :: 0 <= k < |PaniniPatterns| ==> BrandShaped(PaniniPatterns[k])
  {
    forall k | 0 <= k < |PaniniPatterns|
      ensures BrandShaped(PaniniPatterns[k])
    {
      if k < 5 {
        PaniniShapedFirst(k);
      } else {
        PaniniShapedRest(k);
      }
    }
  }

  lemma PaniniShapedFirst(k: nat)
    requires k < 5
    ensures BrandShaped(PaniniPatterns[k])
  {
  }

  lemma PaniniShapedRest(k: nat)
    requires 5 <= k < |PaniniPatterns|
    ensures BrandShaped(PaniniPatterns[k])
  {
  }

  lemma ToppsShaped()
    ensures forall k :: 0 <= k < |ToppsPatterns| ==> BrandShaped(ToppsPatterns[k])
  {
    forall k | 0 <= k < |ToppsPatterns|
      ensures BrandShaped(ToppsPatterns[k])
    {
      ToppsShapedAt(k);
    }
  }

  lemma ToppsShapedAt(k: nat)
    requires k < |ToppsPatterns|
    ensures BrandShaped(ToppsPatterns[k])
  {
    if k == 0 {
      assert BrandShaped(ToppsPatterns[0]);
    } else if k == 1 {
      assert BrandShaped(ToppsPatterns[1]);
    } else if k == 2 {
      assert BrandShaped(ToppsPatterns[2]);
    } else if k == 3 {
      assert BrandShaped(ToppsPatterns[3]);
    } else if k == 4 {
      assert BrandShaped(ToppsPatterns[4]);
    } else {
      assert BrandShaped(ToppsPatterns[5]);
    }
  }

  lemma DonrussShaped()
    ensures forall k :: 0 <= k < |DonrussPatterns| ==> BrandShaped(DonrussPatterns[k])
  {
    assert BrandShaped(DonrussPatterns[0]);
    assert BrandShaped(DonrussPatterns[1]);
    assert BrandShaped(DonrussPatterns[2]);
    assert BrandShaped(DonrussPatterns[3]);
  }

  lemma UpperDeckShaped()
    ensures forall k :: 0 <= k < |UpperDeckPatterns| ==> BrandShaped(UpperDeckPatterns[k])
  {
    UpperDeckSpAuthenticShaped();
    UpperDeckArtifactsShaped();
    UpperDeckBlackDiamondShaped();
    UpperDeckPlainShaped();
  }

  lemma UpperDeckSpAuthenticShaped()
    ensures BrandShaped(UpperDeckPatterns[0])
  {
  }

  lemma UpperDeckArtifactsShaped()
    ensures BrandShaped(UpperDeckPatterns[1])
  {
  }

  lemma UpperDeckBlackDiamondShaped()
    ensures BrandShaped(UpperDeckPatterns[2])
  {
  }

  lemma UpperDeckPlainShaped()
    ensures BrandShaped(UpperDeckPatterns[3])
  {
  }

  lemma LeafShaped()
    ensures forall k :: 0 <= k < |LeafPatterns| ==> BrandShaped(LeafPatterns[k])
  {
    assert BrandShaped(LeafPatterns[0]);
    assert BrandShaped(LeafPatterns[1]);
    assert BrandShaped(LeafPatterns[2]);
  }

  lemma ScoreShaped()
    ensures forall k :: 0 <= k < |ScorePatterns| ==> BrandShaped(ScorePatterns[k])
  {
    assert BrandShaped(ScorePatterns[0]);
  }

  lemma BowmanShaped()
    ensures forall k :: 0 <= k < |BowmanPatterns| ==> BrandShaped(BowmanPatterns[k])
  {
    assert BrandShaped(BowmanPatterns[0]);
    assert BrandShaped(BowmanPatterns[1]);
    assert BrandShaped(BowmanPatterns[2]);
  }

  // ---------------------------------------------------------------------------
  // getBrand

  /** Every pattern of the list has the brand shape. */
  predicate AllShaped(ps: seq<Pattern>) {
    forall k :: 0 <= k < |ps| ==> BrandShaped(ps[k])
  }

  /** The first pattern of `ps` at index `k` or later that matches at the start of `s`. */
  function FirstMatchFrom(ps: seq<Pattern>, s: string, k: nat): (r: Option<nat>)
    requires k <= |ps|
    ensures r.Some? ==> k <= r.value < |ps| && MatchEnd(ps[r.value], s, 0).Some?
    ensures forall m :: k <= m < (if r.Some? then r.value else |ps|) ==>
      MatchEnd(ps[m], s, 0).None?
    decreases |ps| - k
  {
    if k == |ps| then None
    else if MatchEnd(ps[k], s, 0).Some? then Some(k)
    else FirstMatchFrom(ps, s, k + 1)
  }

  /** The words with a leading year word shifted off. */
  function DropYear(words: seq<string>): seq<string>
    requires |words| > 0
  {
    if IsYear(words[0]) then words[1..] else words
  }

  /** The one- or two-word heuristic for a name no pattern matches. */
  function Fallback(words: seq<string>, setName: string): string {
    if |words| >= 2 && (Lower(words[1]) in SubBrandWords || Lower(words[1]) !in NonBrandWords)
    then words[0] + " " + words[1]
    else if |words| > 0 && words[0] != "" then words[0]
    else setName
  }

  /** The brand of a set name under the pattern list `ps`: the matched text of the first
      pattern that matches, trimmed, and otherwise the heuristic on the words after a
      year word. */
  function BrandFrom(ps: seq<Pattern>, setName: string): string {
    match FirstMatchFrom(ps, setName, 0)
    case Some(k) => Trim(setName[..MatchEnd(ps[k], setName, 0).value])
    case None => Fallback(DropYear(SplitOnSpaces(setName)), setName)
  }

  function Brand(setName: string): string {
    BrandFrom(BrandPatterns, setName)
  }

  /** `getBrand`: tries the patterns in order, then shifts a year word off the words
      and applies the heuristic. */
  method GetBrand(setName: string) returns (brand: string)
    ensures brand == Brand(setName)
  {
    brand := BrandBy(BrandPatterns, setName);
  }

  /** The body of `getBrand` for the pattern list `ps`. */
  method BrandBy(ps: seq<Pattern>, setName: string) returns (brand: string)
    ensures brand == BrandFrom(ps, setName)
  {
    for k := 0 to |ps|
      invariant forall m :: 0 <= m < k ==> MatchEnd(ps[m], setName, 0).None?
    {
      var m := MatchEnd(ps[k], setName, 0);
      if m.Some? {
        FirstMatchAt(ps, setName, 0, k);
        return Trim(setName[..m.value]);
      }
    }
    NoFirstMatch(ps, setName);
    var words := SplitOnSpaces(setName);
    if words[0] != "" && IsYear(words[0]) {
      words := words[1..];
    }
    if |words| >= 2 {
      var secondWord := Lower(words[1]);
      if secondWord in SubBrandWords {
        return words[0] + " " + words[1];
      }
      if secondWord !in NonBrandWords {
        return words[0] + " " + words[1];
      }
    }
    if |words| > 0 && words[0] != "" {
      return words[0];
    }
    return setName;
  }

  lemma {:induction false} FirstMatchAt(ps: seq<Pattern>, s: string, i: nat, k: nat)
    requires i <= k < |ps| && MatchEnd(ps[k], s, 0).Some?
    requires forall m :: i <= m < k ==> MatchEnd(ps[m], s, 0).None?
    ensures FirstMatchFrom(ps, s, i) == Some(k)
  {
  }

  lemma NoFirstMatch(ps: seq<Pattern>, s: string)
    requires forall m :: 0 <= m < |ps| ==> MatchEnd(ps[m], s, 0).None?
    ensures FirstMatchFrom(ps, s, 0) == None
  {
  }

  lemma TrimWord(t: string)
    requires t != [] && !IsSpace(t[0]) && !IsSpace(t[|t| - 1])
    ensures Trim(t) == t
  {
  }

  /** When the pattern at `k` is the first to match, the brand is the prefix of the name
      it matches, with the name's own casing; that prefix is an instance of the
      pattern, no other prefix is, and no earlier pattern has any instance that is a
      prefix of the name. */
  lemma BrandOfMatch(ps: seq<Pattern>, s: string, k: nat)
    requires AllShaped(ps) && FirstMatchFrom(ps, s, 0) == Some(k)
    ensures var j := MatchEnd(ps[k], s, 0).value;
      BrandFrom(ps, s) == s[..j] && Spells(ps[k], s[..j])
    ensures forall j :: 0 <= j <= |s| && Spells(ps[k], s[..j]) ==> BrandFrom(ps, s) == s[..j]
    ensures forall m, j :: 0 <= m < k && 0 <= j <= |s| ==> !Spells(ps[m], s[..j])
  {
    MatchedPrefix(ps, s, k);
    forall j | 0 <= j <= |s| && Spells(ps[k], s[..j])
      ensures BrandFrom(ps, s) == s[..j]
    {
      assert s[0..j] == s[..j];
      MatchEndComplete(ps[k], s, 0, j);
    }
    EarlierSpellNothing(ps, s, k);
  }

  /** The brand of a first match is the matched prefix, untrimmed. */
  lemma MatchedPrefix(ps: seq<Pattern>, s: string, k: nat)
    requires AllShaped(ps) && FirstMatchFrom(ps, s, 0) == Some(k)
    ensures var j := MatchEnd(ps[k], s, 0).value;
      BrandFrom(ps, s) == s[..j] && Spells(ps[k], s[..j])
  {
    var p := ps[k];
    var j := MatchEnd(p, s, 0).value;
    assert s[0..j] == s[..j];
    MatchEndSound(p, s, 0);
    SpellsStart(p, s[..j]);
    SpellsEnd(p, s[..j]);
    TrimWord(s[..j]);
  }

  /** The brand when the pattern at `k` is the first to match and matches `s[..j]`. */
  lemma BrandAt(ps: seq<Pattern>, s: string, k: nat, j: nat)
    requires AllShaped(ps) && k < |ps| && MatchEnd(ps[k], s, 0) == Some(j)
    requires forall m :: 0 <= m < k ==> MatchEnd(ps[m], s, 0).None?
    ensures BrandFrom(ps, s) == s[..j]
  {
    FirstMatchAt(ps, s, 0, k);
    MatchedPrefix(ps, s, k);
  }

  /** No pattern before the first match has an instance that is a prefix of the name. */
  lemma EarlierSpellNothing(ps: seq<Pattern>, s: string, k: nat)
    requires AllShaped(ps) && FirstMatchFrom(ps, s, 0) == Some(k)
    ensures forall m, j :: 0 <= m < k && 0 <= j <= |s| ==> !Spells(ps[m], s[..j])
  {
    forall m, j | 0 <= m < k && 0 <= j <= |s|
      ensures !Spells(ps[m], s[..j])
    {
      assert s[0..j] == s[..j];
      if Spells(ps[m], s[..j]) {
        MatchEndComplete(ps[m], s, 0, j);
      }
    }
  }

  /** A name that does not start with a letter matches no pattern. */
  lemma NoMatchWithoutLetter(ps: seq<Pattern>, s: string)
    requires AllShaped(ps)
    requires s == [] || !IsLetter(s[0])
    ensures FirstMatchFrom(ps, s, 0) == None
  {
    forall k | 0 <= k < |ps|
      ensures MatchEnd(ps[k], s, 0).None?
    {
      var x := ps[k][0].text;
      if StartsWithIgnoreCase(s[0..], x) {
        assert s[0..][..|x|][0] == s[0];
        LetterCase(s[0], x[0]);
      }
    }
    NoFirstMatch(ps, s);
  }

  /** A leading year word is dropped before the heuristic, which then sees exactly the
      words of the rest of the name. */
  lemma YearWordSkipped(ps: seq<Pattern>, year: string, rest: string)
    requires AllShaped(ps)
    requires IsYear(year)
    requires rest == [] || !IsSpace(rest[0])
    ensures BrandFrom(ps, year + " " + rest) == Fallback(SplitOnSpaces(rest), year + " " + rest)
  {
    var s := year + " " + rest;
    assert s[0] == year[0];
    NoMatchWithoutLetter(ps, s);
    YearWordDropped(year, rest);
  }

  lemma YearWordDropped(year: string, rest: string)
    requires IsYear(year)
    requires rest == [] || !IsSpace(rest[0])
    ensures DropYear(SplitOnSpaces(year + " " + rest)) == SplitOnSpaces(rest)
  {
    YearHasNoSpace(year);
    SplitOnSpacesCons(year, rest);
    DropYearCons(year, SplitOnSpaces(rest));
  }

  lemma YearHasNoSpace(year: string)
    requires IsYear(year)
    ensures |year| > 0 && NoSpace(year)
  {
  }

  lemma DropYearCons(year: string, words: seq<string>)
    requires IsYear(year)
    ensures DropYear([year] + words) == words
  {
    assert ([year] + words)[1..] == words;
  }

  /** The sub-brand list changes nothing: it has no word in common with the non-brand
      list, so the heuristic takes two words exactly when the second is not a
      non-brand word, and otherwise the first word, or the whole name when the first
      word is empty. */
  lemma FallbackChoice(words: seq<string>, setName: string)
    ensures |words| >= 2 && Lower(words[1]) !in NonBrandWords ==>
      Fallback(words, setName) == words[0] + " " + words[1]
    ensures !(|words| >= 2 && Lower(words[1]) !in NonBrandWords) ==>
      Fallback(words, setName) == if |words| > 0 && words[0] != "" then words[0] else setName
  {
    forall w | w in SubBrandWords
      ensures w !in NonBrandWords
    {
    }
  }

  /** The brand is empty exactly when the name is. */
  lemma BrandNonEmpty(ps: seq<Pattern>, s: string)
    requires AllShaped(ps)
    ensures |BrandFrom(ps, s)| > 0 <==> |s| > 0
  {
    match FirstMatchFrom(ps, s, 0)
    case Some(k) =>
      BrandOfMatch(ps, s, k);
      var j := MatchEnd(ps[k], s, 0).value;
      SpellsStart(ps[k], s[..j]);
    case None =>
  }

  // ---------------------------------------------------------------------------
  // normalizeBrand

  /** `word.charAt(0).toUpperCase() + word.slice(1)`. */
  function CapitalizeFirst(w: string): (r: string)
    ensures |r| == |w|
  {
    if w == [] then [] else [UpperChar(w[0])] + w[1..]
  }

  function CapitalizeAll(ws: seq<string>): (r: seq<string>)
    ensures |r| == |ws|
    ensures forall i :: 0 <= i < |r| ==> r[i] == CapitalizeFirst(ws[i])
  {
    seq(|ws|, i requires 0 <= i < |ws| => CapitalizeFirst(ws[i]))
  }

  /** `normalizeBrand`: trim, collapse white space to single blanks, lower-case, then
      capitalise the first letter of each blank-separated word. */
  function NormalizeBrand(brand: string): string {
    Join(CapitalizeAll(SplitOn(Lower(CollapseSpaces(Trim(brand))), ' ')), ' ')
  }

  /** A word in title case: not empty, no white space, no lower-case initial and no
      upper-case letter after it. */
  predicate IsTitleWord(w: string) {
    |w| > 0 && NoSpace(w) && !IsLowerAscii(w[0]) && NoUpper(w[1..])
  }

  /** The title-case form of each word. */
  function TitleAll(ws: seq<string>): (r: seq<string>)
    ensures |r| == |ws|
    ensures forall i :: 0 <= i < |r| ==> r[i] == CapitalizeFirst(Lower(ws[i]))
  {
    CapitalizeAll(LowerAll(ws))
  }

  lemma LowerKeepsWord(w: string)
    requires |w| > 0 && NoSpace(w)
    ensures |Lower(w)| > 0 && NoSpace(Lower(w)) && ' ' !in Lower(w)
  {
  }

  lemma TitleWord(w: string)
    requires |w| > 0 && NoSpace(w)
    ensures IsTitleWord(CapitalizeFirst(Lower(w)))
    ensures Lower(CapitalizeFirst(Lower(w))) == Lower(w)
  {
    var t := CapitalizeFirst(Lower(w));
    assert t[1..] == Lower(w)[1..];
    assert Lower(t)[0] == Lower(w)[0];
  }

  lemma {:induction false} TitleAllWords(ws: seq<string>)
    requires forall i :: 0 <= i < |ws| ==> |ws[i]| > 0 && NoSpace(ws[i])
    ensures forall i :: 0 <= i < |ws| ==> IsTitleWord(TitleAll(ws)[i])
    ensures TitleAll(TitleAll(ws)) == TitleAll(ws)
  {
    forall i | 0 <= i < |ws|
      ensures IsTitleWord(TitleAll(ws)[i]) && TitleAll(TitleAll(ws))[i] == TitleAll(ws)[i]
    {
      TitleWord(ws[i]);
    }
  }

  /** The normalised brand is the title-cased words of the input joined by single
      blanks. */
  lemma NormalizeBrandIsTitledWords(brand: string)
    ensures NormalizeBrand(brand) == Join(TitleAll(Words(brand)), ' ')
  {
    var ws := Words(brand);
    CollapseTrimIsJoinedWords(brand);
    LowerJoin(ws, ' ');
    WordsAreWords(brand);
    if |ws| == 0 {
      assert SplitOn("", ' ') == [""];
      assert CapitalizeAll([""]) == [""];
    } else {
      forall i | 0 <= i < |LowerAll(ws)|
        ensures ' ' !in LowerAll(ws)[i]
      {
        LowerKeepsWord(ws[i]);
      }
      SplitOnJoin(LowerAll(ws), ' ');
    }
  }

  /** The normalised brand has no white space at either end and no run of white space:
      trimming and collapsing it changes nothing, it is its own words joined by single
      blanks, and each of those words is in title case. */
  lemma NormalizeBrandShape(brand: string)
    ensures var r := NormalizeBrand(brand);
      Words(r) == TitleAll(Words(brand)) && r == Join(Words(r), ' ')
      && CollapseSpaces(Trim(r)) == r
      && forall i :: 0 <= i < |Words(r)| ==> IsTitleWord(Words(r)[i])
  {
    var ws := Words(brand);
    NormalizeBrandIsTitledWords(brand);
    WordsAreWords(brand);
    TitleAllWords(ws);
    WordsJoin(TitleAll(ws));
    CollapseTrimIsJoinedWords(NormalizeBrand(brand));
  }

  /** Normalising twice is normalising once. */
  lemma NormalizeBrandIdempotent(brand: string)
    ensures NormalizeBrand(NormalizeBrand(brand)) == NormalizeBrand(brand)
  {
    var r := NormalizeBrand(brand);
    NormalizeBrandShape(brand);
    NormalizeBrandIsTitledWords(r);
    WordsAreWords(brand);
    TitleAllWords(Words(brand));
  }

  /** Only the words of a brand matter to its normal form. */
  lemma NormalizeBrandByWords(a: string, b: string)
    requires Words(a) == Words(b)
    ensures NormalizeBrand(a) == NormalizeBrand(b)
  {
    NormalizeBrandIsTitledWords(a);
    NormalizeBrandIsTitledWords(b);
  }
}
