/**
 * `getSetName`: the year and the set name read off a checklist file name such as
 * `2024-25-Panini-NBA-Hoops-Basketball-Checklist.xlsx`. The file's extension and
 * directory are dropped, and the base name is tried against a year-range pattern, a
 * single-year pattern and a looser fallback, in that order; a name none of them accepts
 * gets the current year, which the caller passes in.
 */
module SetNames {
  import opened Wrappers
  import opened Text

  datatype SetInfo = SetInfo(year: string, name: string)

  /** The two capture groups `year` and `setName` of a successful pattern match. */
  datatype Captures = Captures(year: string, setName: string)

  // ---------------------------------------------------------------------------
  // The base name
  // ---------------------------------------------------------------------------

  /** `replace(/\.[^/.]+$/, '')`: drops a final `.ext` whose text has no `/`. */
  function StripExtension(s: string): string {
    var k := LastIndexOf(s, '.');
    if 0 <= k && k + 1 < |s| && '/' !in s[k + 1..] then s[..k] else s
  }

  /** `replace(/.*\//, '')`: drops everything up to and including the last `/`. */
  function StripDirectory(s: string): (r: string)
    ensures '/' !in r
  {
    AfterLastIndex(s, '/');
    s[LastIndexOf(s, '/') + 1..]
  }

  /** No `c` follows the last `c`. */
  lemma AfterLastIndex(s: string, c: char)
    ensures c !in s[LastIndexOf(s, c) + 1..]
  {
    var k := LastIndexOf(s, c);
    var t := s[k + 1..];
    forall i | 0 <= i < |t|
      ensures t[i] != c
    {
      assert t[i] == s[k + 1 + i];
    }
  }

  function BaseName(fileName: string): (r: string)
    ensures '/' !in r
  {
    StripDirectory(StripExtension(fileName))
  }

  lemma {:induction false} LastIndexOfAppend(a: string, b: string, c: char)
    ensures c in b ==> LastIndexOf(a + b, c) == |a| + LastIndexOf(b, c)
    ensures c !in b ==> LastIndexOf(a + b, c) == LastIndexOf(a, c)
    decreases |b|
  {
    if b == [] {
      assert a + b == a;
    } else {
      assert (a + b)[..|a + b| - 1] == a + b[..|b| - 1];
      LastIndexOfAppend(a, b[..|b| - 1], c);
      if b[|b| - 1] != c {
        assert c in b ==> c in b[..|b| - 1] by {
          if c in b {
            var i :| 0 <= i < |b| && b[i] == c;
            assert b[..|b| - 1][i] == c;
          }
        }
        assert c in b[..|b| - 1] ==> c in b by {
          if c in b[..|b| - 1] {
            var i :| 0 <= i < |b| - 1 && b[..|b| - 1][i] == c;
            assert b[i] == c;
          }
        }
      }
    }
  }

  lemma LastIndexOfAbsent(s: string, c: char)
    requires c !in s
    ensures LastIndexOf(s, c) == -1
  {
  }

  /** A file name `stem.ext` whose stem has no `/` has the stem as its base name. */
  lemma BaseNameOfFile(stem: string, ext: string)
    requires '/' !in stem && |ext| > 0 && '.' !in ext && '/' !in ext
    ensures BaseName(stem + "." + ext) == stem
  {
    var s := stem + "." + ext;
    LastIndexOfAppend(stem + ".", ext, '.');
    LastIndexOfAppend(stem, ".", '.');
    assert LastIndexOf(s, '.') == |stem|;
    assert s[|stem| + 1..] == ext;
    assert s[..|stem|] == stem;
    LastIndexOfAbsent(stem, '/');
  }

  /** Only the last path segment is parsed: a directory in front of a file name without
      `/` does not change the base name. */
  lemma BaseNameIgnoresDirectory(dir: string, f: string)
    requires '/' !in f
    ensures BaseName(dir + "/" + f) == BaseName(f)
  {
    var g := StripExtension(f);
    StripExtensionAfterSlash(dir, f);
    StripDirectoryAfterSlash(dir, g);
  }

  /** The extension is taken from the last segment: a directory in front is kept whole. */
  lemma StripExtensionAfterSlash(dir: string, f: string)
    requires '/' !in f
    ensures StripExtension(dir + "/" + f) == dir + "/" + StripExtension(f)
  {
    if '.' in f {
      DotInLastSegment(dir + "/", f);
    } else {
      NoDotInLastSegment(dir, f);
    }
  }

  /** The last `.` lies in `f`: the extension cut is the same in `f` and in `d + f`. */
  lemma DotInLastSegment(d: string, f: string)
    requires '.' in f
    ensures StripExtension(d + f) == d + StripExtension(f)
  {
    var s := d + f;
    LastIndexOfAppend(d, f, '.');
    var k := LastIndexOf(f, '.');
    assert s[|d| + k + 1..] == f[k + 1..];
    assert s[..|d| + k] == d + f[..k];
  }

  /** No `.` in the last segment: any `.` of the directory is followed by the `/`, so
      nothing is cut. */
  lemma NoDotInLastSegment(dir: string, f: string)
    requires '/' !in f && '.' !in f
    ensures StripExtension(dir + "/" + f) == dir + "/" + f && StripExtension(f) == f
  {
    var s := dir + "/" + f;
    LastIndexOfAppend(dir + "/", f, '.');
    LastIndexOfAbsent(f, '.');
    var k := LastIndexOf(s, '.');
    if 0 <= k {
      LastIndexOfAppend(dir, "/", '.');
      assert k < |dir|;
      assert s[k + 1..][|dir| - k - 1] == '/';
    }
  }

  /** Dropping the directory of `dir/g`, where `g` has no `/`, leaves `g`. */
  lemma StripDirectoryAfterSlash(dir: string, g: string)
    requires '/' !in g
    ensures StripDirectory(dir + "/" + g) == g
  {
    LastIndexOfAppend(dir + "/", g, '/');
    LastIndexOfAppend(dir, "/", '/');
    LastIndexOfAbsent(g, '/');
    assert (dir + "/" + g)[|dir| + 1..] == g;
  }

  // ---------------------------------------------------------------------------
  // The year-range and single-year patterns
  // ---------------------------------------------------------------------------

  const BasketballChecklist := "-Basketball-Checklist"
  const FootballChecklist := "-Football-Checklist"

  /** `-(Basketball|Football)-Checklist`, ignoring case: the whole of `t`. */
  predicate ChecklistTail(t: string) {
    EqualsIgnoreCase(t, BasketballChecklist) || EqualsIgnoreCase(t, FootballChecklist)
  }

  /** `(.+?)-(Basketball|Football)-Checklist$`: the non-empty text before a final
      sport-and-checklist tail. */
  function ChecklistSplit(rest: string): Option<string> {
    if |rest| > |BasketballChecklist| && EndsWithIgnoreCase(rest, BasketballChecklist)
    then Some(rest[..|rest| - |BasketballChecklist|])
    else if |rest| > |FootballChecklist| && EndsWithIgnoreCase(rest, FootballChecklist)
    then Some(rest[..|rest| - |FootballChecklist|])
    else None
  }

  /** The two tails cannot both end the same text: the character before `-Checklist`
      is the last of `Basketball` or of `Football`, and they differ in the ninth place
      from the end. */
  lemma TailsExclusive(t: string)
    ensures !(EndsWithIgnoreCase(t, BasketballChecklist) && EndsWithIgnoreCase(t, FootballChecklist))
  {
    if EndsWithIgnoreCase(t, BasketballChecklist) && |t| >= 19 {
      var n := |t|;
      assert t[n - 19] == t[n - |BasketballChecklist|..][2];
      assert LowerChar(t[n - 19]) == 'a';
      assert t[n - 19] == t[n - |FootballChecklist|..][0];
      assert LowerChar(FootballChecklist[0]) == '-';
    }
  }

  /** The lazy group has exactly one place to end: `ChecklistSplit` returns `rest[..m]`
      exactly when the text from `m` on is a sport-and-checklist tail. */
  lemma ChecklistSplitAt(rest: string, m: nat)
    requires 1 <= m <= |rest|
    ensures ChecklistSplit(rest) == Some(rest[..m]) <==> ChecklistTail(rest[m..])
  {
    var n := |rest|;
    TailsExclusive(rest);
    if ChecklistTail(rest[m..]) {
      if EqualsIgnoreCase(rest[m..], BasketballChecklist) {
        assert m == n - |BasketballChecklist|;
        assert rest[n - |BasketballChecklist|..] == rest[m..];
      } else {
        assert m == n - |FootballChecklist|;
        assert rest[n - |FootballChecklist|..] == rest[m..];
      }
    }
    if ChecklistSplit(rest) == Some(rest[..m]) {
      assert |ChecklistSplit(rest).value| == m;
      if |rest| > |BasketballChecklist| && EndsWithIgnoreCase(rest, BasketballChecklist) {
        assert m == n - |BasketballChecklist|;
        assert rest[n - |BasketballChecklist|..] == rest[m..];
      } else {
        assert m == n - |FootballChecklist|;
        assert rest[n - |FootballChecklist|..] == rest[m..];
      }
    }
  }

  /** Without any tail, `ChecklistSplit` finds nothing. */
  lemma ChecklistSplitNone(rest: string)
    requires forall m :: 1 <= m <= |rest| ==> !ChecklistTail(rest[m..])
    ensures ChecklistSplit(rest).None?
  {
    if ChecklistSplit(rest).Some? {
      ChecklistSplitAt(rest, |ChecklistSplit(rest).value|);
    }
  }

  /** `^(\d{4}-\d{2})-(.+?)-(Basketball|Football)-Checklist$` (flag `i`). */
  function RangeMatch(s: string): (r: Option<Captures>)
    ensures r.Some? ==> |s| >= 8 && |r.value.year| == 7 && IsYear(r.value.year) && r.value.year == s[..7]
  {
    if |s| >= 8 && IsYear(s[..7]) && s[7] == '-' then
      match ChecklistSplit(s[8..])
      case Some(m) => Some(Captures(s[..7], m))
      case None => None
    else None
  }

  /** `^(\d{4})-(.+?)-(Basketball|Football)-Checklist$` (flag `i`). */
  function SingleMatch(s: string): (r: Option<Captures>)
    ensures r.Some? ==> |s| >= 5 && |r.value.year| == 4 && IsYear(r.value.year) && r.value.year == s[..4]
  {
    if |s| >= 5 && IsYear(s[..4]) && s[4] == '-' then
      match ChecklistSplit(s[5..])
      case Some(m) => Some(Captures(s[..4], m))
      case None => None
    else None
  }

  // ---------------------------------------------------------------------------
  // The fallback pattern
  // ---------------------------------------------------------------------------

  /** `(?:-(Basketball|Football|Checklist))*$` (flag `i`): the whole of `r` is a run of
      sport and checklist tokens. */
  predicate SportTokens(r: string)
    decreases |r|
  {
    r == []
    || (StartsWithIgnoreCase(r, "-Basketball") && SportTokens(r[11..]))
    || (StartsWithIgnoreCase(r, "-Football") && SportTokens(r[9..]))
    || (StartsWithIgnoreCase(r, "-Checklist") && SportTokens(r[10..]))
  }

  /** A non-empty run of tokens begins with `-`. */
  lemma TokensStartWithHyphen(r: string)
    requires SportTokens(r) && r != []
    ensures r[0] == '-'
  {
    if StartsWithIgnoreCase(r, "-Basketball") {
      HyphenFirst(r, "-Basketball");
    } else if StartsWithIgnoreCase(r, "-Football") {
      HyphenFirst(r, "-Football");
    } else {
      HyphenFirst(r, "-Checklist");
    }
  }

  /** Only `-` matches `-` when case is ignored. */
  lemma HyphenFirst(r: string, t: string)
    requires StartsWithIgnoreCase(r, t) && t != [] && t[0] == '-'
    ensures r[0] == '-'
  {
    assert LowerChar(r[..|t|][0]) == LowerChar(t[0]);
  }

  /** No position inside a stretch without `-` leaves a run of tokens. */
  lemma NoHyphenNoTokens(rest: string, i: nat, j: nat)
    requires i <= j <= |rest| && '-' !in rest[i..j]
    ensures forall p :: i <= p < j ==> !SportTokens(rest[p..])
  {
    forall p | i <= p < j
      ensures !SportTokens(rest[p..])
    {
      assert rest[p..][0] == rest[i..j][p - i];
    }
  }

  /** The end of the lazy group `(.+?)` begun at the start of `rest`: the first position
      from `k` on where the remaining text is a run of tokens. */
  function LazyEnd(rest: string, k: nat): (m: nat)
    requires 1 <= k <= |rest|
    ensures k <= m <= |rest| && SportTokens(rest[m..])
    ensures forall j :: k <= j < m ==> !SportTokens(rest[j..])
    decreases |rest| - k
  {
    if SportTokens(rest[k..]) then k else LazyEnd(rest, k + 1)
  }

  /** `-?(.+?)(?:-(Basketball|Football|Checklist))*$` after a year of length `n`: the
      optional hyphen is taken when text follows it, and the lazy group takes the
      shortest non-empty text that leaves a run of tokens. */
  function FallbackAfter(s: string, n: nat): (r: Option<Captures>)
    requires n <= |s|
    ensures r.Some? <==> n < |s|
    ensures r.Some? ==> r.value.year == s[..n] && |r.value.setName| > 0
    ensures r.Some? ==> LazyGroupAt(s, if |s| > n + 1 && s[n] == '-' then n + 1 else n, r.value.setName)
  {
    var k := if |s| > n + 1 && s[n] == '-' then n + 1 else n;
    var rest := s[k..];
    if rest == [] then None
    else
      var m := LazyEnd(rest, 1);
      LazyEndInText(s, k, m);
      assert LazyGroupAt(s, k, rest[..m]);
      Some(Captures(s[..n], rest[..m]))
  }

  /** `name` is the text at `k` that `(.+?)(?:-(Basketball|Football|Checklist))*$` captures:
      a run of tokens follows it to the end, and no shorter non-empty text is followed by
      one. */
  predicate LazyGroupAt(s: string, k: nat, name: string) {
    var e := k + |name|;
    && e <= |s| && name == s[k..e] && SportTokens(s[e..])
    && forall p :: k < p < e ==> !SportTokens(s[p..])
  }

  /** Positions of `s[k..]` are positions of `s` shifted by `k`. */
  lemma LazyEndInText(s: string, k: nat, m: nat)
    requires k < |s| && 1 <= m <= |s| - k
    requires SportTokens(s[k..][m..]) && forall j :: 1 <= j < m ==> !SportTokens(s[k..][j..])
    ensures LazyGroupAt(s, k, s[k..][..m])
  {
    assert s[k..][..m] == s[k..k + m];
    assert s[k..][m..] == s[k + m..];
    forall p | k < p < k + m
      ensures !SportTokens(s[p..])
    {
      assert s[k..][p - k..] == s[p..];
    }
  }

  /** `^(\d{4}(?:-\d{2})?)-?(.+?)(?:-(Basketball|Football|Checklist))*$` (flag `i`): the
      greedy optional `-\d{2}` is tried first, and given up when nothing follows it. */
  function FallbackMatch(s: string): Option<Captures> {
    if |s| >= 4 && IsYear(s[..4]) then
      if |s| >= 7 && IsYear(s[..7]) && FallbackAfter(s, 7).Some? then FallbackAfter(s, 7)
      else FallbackAfter(s, 4)
    else None
  }

  /** `.replace(/\s+(Basketball|Football|Checklist)\s*$/gi, '')`: drops a last word
      `Basketball`, `Football` or `Checklist` (any case), the white space before it and
      any after it. */
  function StripSportWord(t: string): (r: string)
    ensures |r| <= |t| && r == t[..|r|]
  {
    var u := TrimEnd(t);
    TrimEndIsPrefix(t);
    if EndsWithWord(u, "basketball") then TrimEndOfPrefix(t, |u| - 10)
    else if EndsWithWord(u, "football") then TrimEndOfPrefix(t, |u| - 8)
    else if EndsWithWord(u, "checklist") then TrimEndOfPrefix(t, |u| - 9)
    else t
  }

  /** `u` ends with white space followed by the word `w` (any case). */
  predicate EndsWithWord(u: string, w: string) {
    |u| > |w| && EndsWithIgnoreCase(u, w) && IsSpace(u[|u| - |w| - 1])
  }

  function TrimEndOfPrefix(t: string, n: nat): (r: string)
    requires n <= |t|
    ensures |r| <= n && r == t[..|r|]
  {
    TrimEndIsPrefix(t[..n]);
    TrimEnd(t[..n])
  }

  // ---------------------------------------------------------------------------
  // getSetName
  // ---------------------------------------------------------------------------

  /** `setName.replace(/-/g, ' ')`. */
  function Spaced(s: string): (r: string)
    ensures |r| == |s| && '-' !in r
  {
    var r := ReplaceChar(s, '-', ' ');
    assert forall i :: 0 <= i < |r| ==> r[i] != '-';
    r
  }

  /** `getSetName(fileName)`, with the current calendar year passed in. */
  function GetSetName(fileName: string, currentYear: string): SetInfo {
    var base := BaseName(fileName);
    match RangeMatch(base)
    case Some(c) => SetInfo(c.year, Spaced(c.setName))
    case None =>
      match SingleMatch(base)
      case Some(c) => SetInfo(c.year, Spaced(c.setName))
      case None =>
        match FallbackMatch(base)
        case Some(c) => SetInfo(c.year, Trim(StripSportWord(Spaced(c.setName))))
        case None => SetInfo(currentYear, Spaced(base))
  }

  // ---------------------------------------------------------------------------
  // Properties
  // ---------------------------------------------------------------------------

  /** A substring of a text without `-` has no `-`. */
  lemma NoHyphenSlice(s: string, i: nat, j: nat)
    requires i <= j <= |s| && '-' !in s
    ensures '-' !in s[i..j]
  {
  }

  /** Every branch turns hyphens into spaces, so the name never contains `-`. */
  lemma NameHasNoHyphen(fileName: string, currentYear: string)
    ensures '-' !in GetSetName(fileName, currentYear).name
  {
    var base := BaseName(fileName);
    if RangeMatch(base).None? && SingleMatch(base).None? && FallbackMatch(base).Some? {
      var t := Spaced(FallbackMatch(base).value.setName);
      var u := StripSportWord(t);
      NoHyphenSlice(t, 0, |u|);
      TrimStartIsSuffix(u);
      NoHyphenSlice(u, |u| - |TrimStart(u)|, |u|);
      TrimEndIsPrefix(TrimStart(u));
      NoHyphenSlice(TrimStart(u), 0, |Trim(u)|);
    }
  }

  predicate StartsWithFourDigits(s: string) {
    |s| >= 4 && IsDigit(s[0]) && IsDigit(s[1]) && IsDigit(s[2]) && IsDigit(s[3])
  }

  /** The fallback pattern accepts exactly the base names that begin with four digits
      and go on after them. */
  lemma FallbackAccepts(s: string)
    ensures FallbackMatch(s).Some? <==> |s| > 4 && StartsWithFourDigits(s)
  {
    if |s| >= 4 {
      assert IsYear(s[..4]) <==> StartsWithFourDigits(s);
    }
  }

  /** A base name that begins with four digits followed by more text gets a year of the
      form DDDD or DDDD-DD taken from its front; any other gets the current year and
      the whole base name with hyphens turned into spaces. */
  lemma YearOfSetName(fileName: string, currentYear: string)
    ensures var base, info := BaseName(fileName), GetSetName(fileName, currentYear);
      if |base| > 4 && StartsWithFourDigits(base)
      then IsYear(info.year) && info.year <= base
      else info == SetInfo(currentYear, Spaced(base))
  {
    var base := BaseName(fileName);
    FallbackAccepts(base);
    if |base| <= 4 || !StartsWithFourDigits(base) {
      assert RangeMatch(base).None? && SingleMatch(base).None?;
    } else {
      var c := FallbackMatch(base).value;
      assert IsYear(c.year) && c.year <= base by {
        if |base| >= 7 && IsYear(base[..7]) && FallbackAfter(base, 7).Some? {
          assert c.year == base[..7];
        } else {
          assert c.year == base[..4];
          assert IsYear(base[..4]);
        }
      }
    }
  }

  /** Every name the year-range pattern accepts is also accepted by the single-year
      pattern, which would read only `DDDD` as the year: trying the range first is what
      keeps the season. */
  lemma RangeBeforeSingle(fileName: string, currentYear: string)
    requires RangeMatch(BaseName(fileName)).Some?
    ensures var base := BaseName(fileName);
      SingleMatch(base).Some? && SingleMatch(base).value.year == base[..4]
      && GetSetName(fileName, currentYear).year == base[..7] != base[..4]
  {
    var base := BaseName(fileName);
    RangeAlsoSingle(base);
    assert |base[..7]| != |base[..4]|;
  }

  lemma RangeAlsoSingle(base: string)
    requires RangeMatch(base).Some?
    ensures SingleMatch(base).Some? && SingleMatch(base).value.year == base[..4]
  {
    var m := RangeMatch(base).value.setName;
    var rest := base[8..];
    ChecklistSplitAt(rest, |m|);
    assert rest[..|m|] == m;
    var rest' := base[5..];
    assert rest'[3 + |m|..] == rest[|m|..];
    ChecklistSplitAt(rest', 3 + |m|);
    assert IsYear(base[..4]);
  }

  /** A checklist name built from a season, a set name and a sport-and-checklist tail
      parses back into that season and the set name with hyphens as spaces. */
  lemma RangeRoundTrip(year: string, setName: string, tail: string, ext: string,
                       currentYear: string)
    requires IsYear(year) && |year| == 7 && |setName| > 0 && '/' !in setName
    requires ChecklistTail(tail)
    requires |ext| > 0 && '.' !in ext && '/' !in ext
    ensures GetSetName(year + "-" + setName + tail + "." + ext, currentYear)
         == SetInfo(year, Spaced(setName))
  {
    var stem := year + "-" + setName + tail;
    NoSlashStem(year, setName, tail);
    BaseNameOfFile(stem, ext);
    RangeMatchOf(year, setName, tail);
  }

  lemma RangeMatchOf(year: string, setName: string, tail: string)
    requires IsYear(year) && |year| == 7 && |setName| > 0 && ChecklistTail(tail)
    ensures RangeMatch(year + "-" + setName + tail) == Some(Captures(year, setName))
  {
    var stem := year + "-" + setName + tail;
    var rest := setName + tail;
    assert stem[..7] == year && stem[7] == '-' && stem[8..] == rest;
    assert rest[|setName|..] == tail && rest[..|setName|] == setName;
    ChecklistSplitAt(rest, |setName|);
  }

  /** The same for a single year, when the set name does not itself begin like the
      second half of a season (`DD-` followed by more text). */
  lemma SingleRoundTrip(year: string, setName: string, tail: string, ext: string,
                        currentYear: string)
    requires IsYear(year) && |year| == 4 && |setName| > 0 && '/' !in setName
    requires !(|setName| > 3 && IsDigit(setName[0]) && IsDigit(setName[1]) && setName[2] == '-')
    requires ChecklistTail(tail)
    requires |ext| > 0 && '.' !in ext && '/' !in ext
    ensures GetSetName(year + "-" + setName + tail + "." + ext, currentYear)
         == SetInfo(year, Spaced(setName))
  {
    var stem := year + "-" + setName + tail;
    NoSlashStem(year, setName, tail);
    BaseNameOfFile(stem, ext);
    SingleMatchOf(year, setName, tail);
    NoRangeMatch(year, setName, tail);
  }

  lemma SingleMatchOf(year: string, setName: string, tail: string)
    requires IsYear(year) && |year| == 4 && |setName| > 0 && ChecklistTail(tail)
    ensures SingleMatch(year + "-" + setName + tail) == Some(Captures(year, setName))
  {
    var stem := year + "-" + setName + tail;
    var rest := setName + tail;
    assert stem[..4] == year && stem[4] == '-' && stem[5..] == rest;
    assert rest[|setName|..] == tail && rest[..|setName|] == setName;
    ChecklistSplitAt(rest, |setName|);
  }

  lemma NoRangeMatch(year: string, setName: string, tail: string)
    requires |year| == 4 && |setName| > 0 && ChecklistTail(tail)
    requires !(|setName| > 3 && IsDigit(setName[0]) && IsDigit(setName[1]) && setName[2] == '-')
    ensures RangeMatch(year + "-" + setName + tail).None?
  {
    var stem := year + "-" + setName + tail;
    if |stem| >= 8 && IsYear(stem[..7]) && stem[7] == '-' {
      if |setName| >= 3 {
        assert stem[5] == setName[0] && stem[6] == setName[1] && stem[7] == setName[2];
        assert |setName| == 3;
      }
      var rest' := stem[8..];
      var d := 3 - |setName|;
      assert rest' == tail[d..];
      forall m | 1 <= m <= |rest'| ensures !ChecklistTail(rest'[m..]) {
        assert rest'[m..] == tail[d + m..];
        InnerTail(tail, d + m);
      }
      ChecklistSplitNone(rest');
    }
  }

  /** No proper suffix of a sport-and-checklist tail is one. */
  lemma InnerTail(t: string, j: nat)
    requires ChecklistTail(t) && 1 <= j <= |t|
    ensures !ChecklistTail(t[j..])
  {
    if |t[j..]| == |FootballChecklist| {
      assert LowerChar(t[j..][0]) == LowerChar(BasketballChecklist[2]);
    }
  }

  lemma NoSlashStem(year: string, setName: string, tail: string)
    requires IsYear(year) && '/' !in setName && ChecklistTail(tail)
    ensures '/' !in year + "-" + setName + tail
  {
    assert '/' !in tail by {
      forall i | 0 <= i < |tail| ensures tail[i] != '/' {
        if EqualsIgnoreCase(tail, BasketballChecklist) {
          assert LowerChar(tail[i]) == LowerChar(BasketballChecklist[i]);
        } else {
          assert LowerChar(tail[i]) == LowerChar(FootballChecklist[i]);
        }
      }
    }
  }
}
