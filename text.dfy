/**
 * The JavaScript string primitives the classifiers are built from, over `seq<char>`:
 * the `\s` character class, ASCII case mapping, `trim`, `replace(/\s+/g, ' ')`,
 * `split(/\s+/)`, `split(c)`, `join(c)` and `includes`, each with the lemmas that
 * relate them.
 */
module Text {

  /** The characters JavaScript's `\s` and `trim` treat as white space
      (WhiteSpace and LineTerminator of ECMA-262). */
  predicate IsSpace(c: char) {
    c == ' ' || ('\t' <= c <= '\r') || c == '\U{A0}' || c == '\U{1680}'
    || ('\U{2000}' <= c <= '\U{200A}') || c == '\U{2028}' || c == '\U{2029}'
    || c == '\U{202F}' || c == '\U{205F}' || c == '\U{3000}' || c == '\U{FEFF}'
  }

  predicate IsDigit(c: char) { '0' <= c <= '9' }
  predicate IsUpperAscii(c: char) { 'A' <= c <= 'Z' }
  predicate IsLowerAscii(c: char) { 'a' <= c <= 'z' }

  /** `^\d{4}(-\d{2})?$`: a year such as 2024 or a season such as 2024-25. */
  predicate IsYear(w: string) {
    |w| >= 4 && IsDigit(w[0]) && IsDigit(w[1]) && IsDigit(w[2]) && IsDigit(w[3])
    && (|w| == 4 || (|w| == 7 && w[4] == '-' && IsDigit(w[5]) && IsDigit(w[6])))
  }

  predicate NoSpace(s: string) { forall i :: 0 <= i < |s| ==> !IsSpace(s[i]) }
  predicate AllSpace(s: string) { forall i :: 0 <= i < |s| ==> IsSpace(s[i]) }
  predicate NoUpper(s: string) { forall i :: 0 <= i < |s| ==> !IsUpperAscii(s[i]) }

  function LowerChar(c: char): char {
    if IsUpperAscii(c) then (c as int + 32) as char else c
  }

  function UpperChar(c: char): char {
    if IsLowerAscii(c) then (c as int - 32) as char else c
  }

  /** `toLowerCase`, restricted to ASCII letters. */
  function Lower(s: string): string {
    seq(|s|, i requires 0 <= i < |s| => LowerChar(s[i]))
  }

  /** Case-insensitive equality of two strings, as a regular expression with flag `i`
      compares ASCII letters. */
  predicate EqualsIgnoreCase(a: string, b: string) {
    |a| == |b| && forall i :: 0 <= i < |a| ==> LowerChar(a[i]) == LowerChar(b[i])
  }

  /** `s` ends with `t`, ignoring ASCII case. */
  predicate EndsWithIgnoreCase(s: string, t: string) {
    |t| <= |s| && EqualsIgnoreCase(s[|s| - |t|..], t)
  }

  /** `s` starts with `t`, ignoring ASCII case. */
  predicate StartsWithIgnoreCase(s: string, t: string) {
    |t| <= |s| && EqualsIgnoreCase(s[..|t|], t)
  }

  /** `trimStart`: drops the leading white space. */
  function TrimStart(s: string): (r: string)
    ensures |r| <= |s|
    ensures r == [] || !IsSpace(r[0])
  {
    if |s| > 0 && IsSpace(s[0]) then TrimStart(s[1..]) else s
  }

  /** `trimEnd`: drops the trailing white space. */
  function TrimEnd(s: string): (r: string)
    ensures |r| <= |s|
    ensures r == [] || !IsSpace(r[|r| - 1])
  {
    if |s| > 0 && IsSpace(s[|s| - 1]) then TrimEnd(s[..|s| - 1]) else s
  }

  /** `trim`. */
  function Trim(s: string): string {
    TrimEnd(TrimStart(s))
  }

  /** `replace(/\s+/g, ' ')`: every maximal run of white space becomes one blank. */
  function CollapseSpaces(s: string): string
    decreases |s|
  {
    if s == [] then []
    else if IsSpace(s[0]) then " " + CollapseSpaces(TrimStart(s[1..]))
    else [s[0]] + CollapseSpaces(s[1..])
  }

  /** `replace(/x/g, y)` for a single character `x`. */
  function ReplaceChar(s: string, x: char, y: char): (r: string)
    ensures |r| == |s|
    ensures forall i :: 0 <= i < |r| ==> r[i] == if s[i] == x then y else s[i]
  {
    seq(|s|, i requires 0 <= i < |s| => if s[i] == x then y else s[i])
  }

  /** `lastIndexOf(c)`: the position of the last `c` in `s`, or -1. */
  function LastIndexOf(s: string, c: char): (k: int)
    ensures -1 <= k < |s|
    ensures k >= 0 ==> s[k] == c
    ensures forall j :: k < j < |s| ==> s[j] != c
  {
    if s == [] then -1
    else if s[|s| - 1] == c then |s| - 1
    else LastIndexOf(s[..|s| - 1], c)
  }

  /** `split(/\s+/)`: the pieces between maximal white-space runs; a leading (trailing)
      run yields an empty first (last) piece, and the empty string yields `[""]`. */
  function SplitOnSpaces(s: string): (r: seq<string>)
    ensures |r| >= 1
    decreases |s|
  {
    if s == [] then [""]
    else if IsSpace(s[0]) then [""] + SplitOnSpaces(TrimStart(s[1..]))
    else
      var t := SplitOnSpaces(s[1..]);
      [[s[0]] + t[0]] + t[1..]
  }

  /** `split(c)` for a single-character separator. */
  function SplitOn(s: string, c: char): (r: seq<string>)
    ensures |r| >= 1
  {
    if s == [] then [""]
    else if s[0] == c then [""] + SplitOn(s[1..], c)
    else
      var t := SplitOn(s[1..], c);
      [[s[0]] + t[0]] + t[1..]
  }

  /** `join(c)`. */
  function Join(ws: seq<string>, c: char): string {
    if |ws| == 0 then ""
    else if |ws| == 1 then ws[0]
    else ws[0] + [c] + Join(ws[1..], c)
  }

  /** The number of leading characters that are not white space. */
  function TokenLength(s: string): (k: nat)
    ensures k <= |s| && NoSpace(s[..k])
    ensures k == |s| || IsSpace(s[k])
  {
    if s == [] || IsSpace(s[0]) then 0 else 1 + TokenLength(s[1..])
  }

  /** The non-empty white-space-free tokens of `s`, in order. */
  function Words(s: string): (ws: seq<string>)
    decreases |s|
  {
    var t := TrimStart(s);
    if t == [] then []
    else
      var k := TokenLength(t);
      [t[..k]] + Words(t[k..])
  }

  /** `s.includes(sub)`: a left-to-right search. */
  function Includes(s: string, sub: string): bool
    decreases |s|
  {
    if |sub| > |s| then false
    else if s[..|sub|] == sub then true
    else Includes(s[1..], sub)
  }

  predicate OccursAt(s: string, sub: string, i: int) {
    0 <= i <= |s| - |sub| && s[i..i + |sub|] == sub
  }

  /** `sub` occurs somewhere in `s`: the reference definition `Includes` is checked against. */
  ghost predicate Occurs(s: string, sub: string) {
    exists i :: OccursAt(s, sub, i)
  }

  // ---------------------------------------------------------------------------
  // Lemmas

  /** `trimStart` keeps a suffix. */
  lemma {:induction false} TrimStartIsSuffix(s: string)
    ensures TrimStart(s) == s[|s| - |TrimStart(s)|..]
  {
    if |s| > 0 && IsSpace(s[0]) {
      TrimStartIsSuffix(s[1..]);
    }
  }

  lemma {:induction false} TrimStartDropsSpaces(s: string)
    ensures AllSpace(s[..|s| - |TrimStart(s)|])
  {
    if |s| > 0 && IsSpace(s[0]) {
      TrimStartDropsSpaces(s[1..]);
      assert s[..|s| - |TrimStart(s)|] == [s[0]] + s[1..][..|s[1..]| - |TrimStart(s[1..])|];
    }
  }

  /** `trimEnd` keeps a prefix. */
  lemma {:induction false} TrimEndIsPrefix(s: string)
    ensures TrimEnd(s) == s[..|TrimEnd(s)|]
  {
    if |s| > 0 && IsSpace(s[|s| - 1]) {
      TrimEndIsPrefix(s[..|s| - 1]);
    }
  }

  lemma {:induction false} TrimEndDropsSpaces(s: string)
    ensures AllSpace(s[|TrimEnd(s)|..])
  {
    if |s| > 0 && IsSpace(s[|s| - 1]) {
      TrimEndDropsSpaces(s[..|s| - 1]);
      assert s[|TrimEnd(s)|..] == s[..|s| - 1][|TrimEnd(s[..|s| - 1])|..] + [s[|s| - 1]];
    }
  }

  /** Every word is non-empty and free of white space. */
  lemma {:induction false} WordsAreWords(s: string)
    ensures forall i :: 0 <= i < |Words(s)| ==> |Words(s)[i]| > 0 && NoSpace(Words(s)[i])
    decreases |s|
  {
    var t := TrimStart(s);
    if t != [] {
      var k := TokenLength(t);
      WordsAreWords(t[k..]);
    }
  }

  /** The search finds `sub` exactly when it occurs. */
  lemma {:induction false} IncludesIffOccurs(s: string, sub: string)
    ensures Includes(s, sub) <==> Occurs(s, sub)
    decreases |s|
  {
    if |sub| > |s| {
    } else if s[..|sub|] == sub {
      assert OccursAt(s, sub, 0);
    } else {
      IncludesIffOccurs(s[1..], sub);
      if Occurs(s, sub) {
        var i :| OccursAt(s, sub, i);
        assert i != 0;
        assert s[1..][i - 1..i - 1 + |sub|] == s[i..i + |sub|];
        assert OccursAt(s[1..], sub, i - 1);
      }
      if Occurs(s[1..], sub) {
        var i :| OccursAt(s[1..], sub, i);
        assert s[i + 1..i + 1 + |sub|] == s[1..][i..i + |sub|];
        assert OccursAt(s, sub, i + 1);
      }
    }
  }

  /** A character of `sub` that `s` lacks rules out every occurrence. */
  lemma AbsentChar(s: string, sub: string, j: nat)
    requires j < |sub| && sub[j] !in s
    ensures !Occurs(s, sub)
  {
    forall i | 0 <= i <= |s| - |sub|
      ensures !OccursAt(s, sub, i)
    {
      assert s[i..i + |sub|][j] == s[i + j];
    }
  }

  /** When the character `sub[j]` appears in `s` only at `p`, the one place `sub` can
      occur is `p - j`. */
  lemma OnlyPlace(s: string, sub: string, j: nat, p: nat)
    requires j < |sub| && p < |s| && sub[j] !in s[..p] && sub[j] !in s[p + 1..]
    ensures Occurs(s, sub) ==> OccursAt(s, sub, p - j)
  {
    if Occurs(s, sub) {
      var i :| OccursAt(s, sub, i);
      assert s[i..i + |sub|][j] == s[i + j] == sub[j];
    }
  }

  /** Lower-casing leaves text without upper-case letters as it is. */
  lemma LowerNoUpper(s: string)
    requires NoUpper(s)
    ensures Lower(s) == s
  {
  }

  lemma LowerAppend(a: string, b: string)
    ensures Lower(a + b) == Lower(a) + Lower(b)
  {
  }

  /** `toLowerCase` commutes with `join(c)` when `c` is not an upper-case letter. */
  lemma {:induction false} LowerJoin(ws: seq<string>, c: char)
    requires !IsUpperAscii(c)
    ensures Lower(Join(ws, c)) == Join(LowerAll(ws), c)
  {
    if |ws| > 1 {
      LowerJoin(ws[1..], c);
      assert LowerAll(ws)[1..] == LowerAll(ws[1..]);
      LowerAppend(ws[0] + [c], Join(ws[1..], c));
      LowerAppend(ws[0], [c]);
    }
  }

  function LowerAll(ws: seq<string>): (r: seq<string>)
    ensures |r| == |ws|
    ensures forall i :: 0 <= i < |r| ==> r[i] == Lower(ws[i])
  {
    seq(|ws|, i requires 0 <= i < |ws| => Lower(ws[i]))
  }

  /** `split(c)` undoes `join(c)` when no piece contains `c`. */
  lemma {:induction false} SplitOnJoin(ws: seq<string>, c: char)
    requires |ws| >= 1
    requires forall i :: 0 <= i < |ws| ==> c !in ws[i]
    ensures SplitOn(Join(ws, c), c) == ws
    decreases |ws|, |ws[0]|
  {
    if ws[0] == [] {
      if |ws| > 1 {
        assert Join(ws, c) == [c] + Join(ws[1..], c);
        SplitOnJoin(ws[1..], c);
        assert ws == [""] + ws[1..];
      }
    } else {
      var w := ws[0];
      var ws' := [w[1..]] + ws[1..];
      assert ws'[1..] == ws[1..];
      if |ws| == 1 {
        assert Join(ws', c) == w[1..];
      } else {
        assert Join(ws', c) == w[1..] + [c] + Join(ws[1..], c);
      }
      assert Join(ws, c) == [w[0]] + Join(ws', c);
      assert forall i :: 0 <= i < |ws'| ==> c !in ws'[i] by {
        assert c !in w;
      }
      SplitOnJoin(ws', c);
      assert w != [] && w[0] != c;
      assert [w[0]] + w[1..] == w;
    }
  }

  /** `join(c)` undoes `split(c)`. */
  lemma {:induction false} JoinSplitOn(s: string, c: char)
    ensures Join(SplitOn(s, c), c) == s
  {
    if s != [] {
      JoinSplitOn(s[1..], c);
      var t := SplitOn(s[1..], c);
      if s[0] == c {
        assert SplitOn(s, c) == [""] + t;
        assert Join([""] + t, c) == "" + [c] + Join(t, c);
      } else {
        var r := [[s[0]] + t[0]] + t[1..];
        if |t| == 1 {
          assert Join(r, c) == [s[0]] + t[0];
          assert Join(t, c) == t[0];
        } else {
          assert Join(r, c) == [s[0]] + t[0] + [c] + Join(t[1..], c);
          assert Join(t, c) == t[0] + [c] + Join(t[1..], c);
        }
        assert s == [s[0]] + s[1..];
      }
    }
  }

  /** Collapsing white space leaves a white-space-free prefix unchanged. */
  lemma {:induction false} CollapseSpacesFreePrefix(w: string, y: string)
    requires NoSpace(w)
    ensures CollapseSpaces(w + y) == w + CollapseSpaces(y)
  {
    if w != [] {
      assert (w + y)[0] == w[0] && !IsSpace(w[0]);
      assert (w + y)[1..] == w[1..] + y;
      CollapseSpacesFreePrefix(w[1..], y);
      assert CollapseSpaces(w + y) == [w[0]] + (w[1..] + CollapseSpaces(y));
      assert [w[0]] + (w[1..] + CollapseSpaces(y)) == w + CollapseSpaces(y);
    } else {
      assert w + y == y;
    }
  }

  /** `trimStart` of a white-space run followed by a word start is that word start. */
  lemma {:induction false} TrimStartSpaces(sp: string, x: string)
    requires AllSpace(sp)
    requires x == [] || !IsSpace(x[0])
    ensures TrimStart(sp + x) == x
  {
    if sp != [] {
      assert (sp + x)[1..] == sp[1..] + x;
      TrimStartSpaces(sp[1..], x);
    } else {
      assert sp + x == x;
    }
  }

  /** `trimEnd` works on the last non-blank part only. */
  lemma {:induction false} TrimEndAppend(a: string, b: string)
    requires TrimEnd(b) != []
    ensures TrimEnd(a + b) == a + TrimEnd(b)
    decreases |b|
  {
    if IsSpace(b[|b| - 1]) {
      assert (a + b)[..|a + b| - 1] == a + b[..|b| - 1];
      TrimEndAppend(a, b[..|b| - 1]);
    }
  }

  /** `trimEnd` of a word followed by blanks is the word. */
  lemma {:induction false} TrimEndSpaces(w: string, sp: string)
    requires w != [] && !IsSpace(w[|w| - 1])
    requires AllSpace(sp)
    ensures TrimEnd(w + sp) == w
    decreases |sp|
  {
    if sp != [] {
      assert (w + sp)[..|w + sp| - 1] == w + sp[..|sp| - 1];
      TrimEndSpaces(w, sp[..|sp| - 1]);
    } else {
      assert w + sp == w;
    }
  }

  lemma TrimStartIdempotent(s: string)
    ensures TrimStart(TrimStart(s)) == TrimStart(s)
  {
  }

  /** Trimming and collapsing white space is joining the words with single blanks. */
  lemma CollapseTrimIsJoinedWords(s: string)
    ensures CollapseSpaces(Trim(s)) == Join(Words(s), ' ')
  {
    CollapseTrimEndWords(TrimStart(s));
    WordsTrimStart(s);
  }

  lemma WordsTrimStart(s: string)
    ensures Words(TrimStart(s)) == Words(s)
  {
    TrimStartIdempotent(s);
  }

  lemma WordsCons(s: string)
    requires s != [] && !IsSpace(s[0])
    ensures Words(s) == [s[..TokenLength(s)]] + Words(s[TokenLength(s)..])
  {
  }

  lemma JoinCons(w: string, ws: seq<string>, c: char)
    requires |ws| > 0
    ensures Join([w] + ws, c) == w + [c] + Join(ws, c)
  {
    assert ([w] + ws)[1..] == ws;
  }

  /** A white-space run before a word start collapses to one blank. */
  lemma CollapseRun(run: string, x: string)
    requires |run| > 0 && AllSpace(run)
    requires x == [] || !IsSpace(x[0])
    ensures CollapseSpaces(run + x) == " " + CollapseSpaces(x)
  {
    assert (run + x)[0] == run[0];
    assert (run + x)[1..] == run[1..] + x;
    TrimStartSpaces(run[1..], x);
  }

  lemma CollapseWordRun(w: string, run: string, x: string, j: string)
    requires NoSpace(w) && |run| > 0 && AllSpace(run)
    requires x == [] || !IsSpace(x[0])
    requires CollapseSpaces(x) == j
    ensures CollapseSpaces(w + (run + x)) == w + " " + j
  {
    CollapseSpacesFreePrefix(w, run + x);
    CollapseRun(run, x);
  }

  lemma {:induction false} CollapseTrimEndWords(s: string)
    requires s == [] || !IsSpace(s[0])
    ensures CollapseSpaces(TrimEnd(s)) == Join(Words(s), ' ')
    decreases |s|
  {
    if s != [] {
      var k := TokenLength(s);
      var rest := s[k..];
      var r' := TrimStart(rest);
      if r' == [] {
        CollapseLastWord(s);
      } else {
        CollapseTrimEndWords(r');
        CollapseInnerWord(s);
      }
    }
  }

  /** The base case: a single word, possibly followed by blanks. */
  lemma CollapseLastWord(s: string)
    requires s != [] && !IsSpace(s[0])
    requires TrimStart(s[TokenLength(s)..]) == []
    ensures CollapseSpaces(TrimEnd(s)) == Join(Words(s), ' ')
  {
    CollapseLastWordText(s);
    LastWordWords(s);
  }

  lemma CollapseLastWordText(s: string)
    requires s != [] && !IsSpace(s[0])
    requires TrimStart(s[TokenLength(s)..]) == []
    ensures CollapseSpaces(TrimEnd(s)) == s[..TokenLength(s)]
  {
    var k := TokenLength(s);
    BlanksAfterLastWord(s[k..]);
    assert k == 1 + TokenLength(s[1..]);
    assert s[..k][k - 1] == s[k - 1];
    TrimEndAt(s, k);
    CollapseSpacesFreePrefix(s[..k], []);
    assert s[..k] + [] == s[..k];
  }

  /** `trimEnd` stops at the last character that is not white space. */
  lemma {:induction false} TrimEndAt(s: string, k: nat)
    requires 0 < k <= |s| && !IsSpace(s[k - 1]) && AllSpace(s[k..])
    ensures TrimEnd(s) == s[..k]
    decreases |s|
  {
    if k < |s| {
      var t := s[..|s| - 1];
      assert s[|s| - 1] == s[k..][|s| - 1 - k];
      assert t[k..] == s[k..][..|s| - 1 - k];
      TrimEndAt(t, k);
      assert t[..k] == s[..k];
    } else {
      assert s[..k] == s;
    }
  }

  /** Text whose `trimStart` is empty is all white space. */
  lemma BlanksAfterLastWord(rest: string)
    requires TrimStart(rest) == []
    ensures AllSpace(rest)
  {
    TrimStartDropsSpaces(rest);
    assert rest[..|rest|] == rest;
  }

  lemma LastWordWords(s: string)
    requires s != [] && !IsSpace(s[0])
    requires TrimStart(s[TokenLength(s)..]) == []
    ensures Words(s) == [s[..TokenLength(s)]]
  {
    WordsCons(s);
    WordsTrimStart(s[TokenLength(s)..]);
  }

  /** The step: a word, a white-space run, and the (already collapsed) remainder. */
  lemma CollapseInnerWord(s: string)
    requires s != [] && !IsSpace(s[0])
    requires TrimStart(s[TokenLength(s)..]) != []
    requires var r' := TrimStart(s[TokenLength(s)..]);
      CollapseSpaces(TrimEnd(r')) == Join(Words(r'), ' ')
    ensures CollapseSpaces(TrimEnd(s)) == Join(Words(s), ' ')
  {
    var r' := TrimStart(s[TokenLength(s)..]);
    CollapseInnerWordText(s);
    InnerWordWords(s);
    JoinCons(s[..TokenLength(s)], Words(r'), ' ');
  }

  lemma CollapseInnerWordText(s: string)
    requires s != [] && !IsSpace(s[0])
    requires TrimStart(s[TokenLength(s)..]) != []
    ensures var r' := TrimStart(s[TokenLength(s)..]);
      CollapseSpaces(TrimEnd(s)) == s[..TokenLength(s)] + " " + CollapseSpaces(TrimEnd(r'))
  {
    var k := TokenLength(s);
    var rest := s[k..];
    var r' := TrimStart(rest);
    var run := rest[..|rest| - |r'|];
    SplitRun(rest);
    TakeDrop(s, k);
    CollapseWordRunWord(s[..k], run, r');
  }

  /** A string is its first `k` characters followed by the rest. */
  lemma TakeDrop(s: string, k: nat)
    requires k <= |s|
    ensures s == s[..k] + s[k..]
  { }

  /** A string that starts with white space is a non-empty blank run and its `trimStart`. */
  lemma SplitRun(rest: string)
    requires TrimStart(rest) != rest
    ensures var r' := TrimStart(rest);
      rest == rest[..|rest| - |r'|] + r' && |rest[..|rest| - |r'|]| > 0 &&
      AllSpace(rest[..|rest| - |r'|])
  {
    TrimStartIsSuffix(rest);
    TrimStartDropsSpaces(rest);
  }

  lemma CollapseWordRunWord(w: string, run: string, r': string)
    requires NoSpace(w) && |run| > 0 && AllSpace(run)
    requires r' != [] && !IsSpace(r'[0])
    ensures CollapseSpaces(TrimEnd(w + (run + r'))) == w + " " + CollapseSpaces(TrimEnd(r'))
  {
    TrimEndWordStart(r');
    TrimEndAfter(w, run, r');
    CollapseWordRun(w, run, TrimEnd(r'), CollapseSpaces(TrimEnd(r')));
  }

  /** `trimEnd` keeps a non-blank first character. */
  lemma TrimEndWordStart(s: string)
    requires s != [] && !IsSpace(s[0])
    ensures TrimEnd(s) != [] && TrimEnd(s)[0] == s[0]
  {
    TrimEndIsPrefix(s);
    TrimEndDropsSpaces(s);
  }

  lemma TrimEndAfter(w: string, run: string, r': string)
    requires TrimEnd(r') != []
    ensures TrimEnd(w + (run + r')) == w + (run + TrimEnd(r'))
  {
    TrimEndAppend(w + run, r');
    assert w + (run + r') == (w + run) + r';
    assert (w + run) + TrimEnd(r') == w + (run + TrimEnd(r'));
  }

  lemma InnerWordWords(s: string)
    requires s != [] && !IsSpace(s[0])
    requires TrimStart(s[TokenLength(s)..]) != []
    ensures var r' := TrimStart(s[TokenLength(s)..]);
      Words(s) == [s[..TokenLength(s)]] + Words(r') && |Words(r')| > 0
  {
    var rest := s[TokenLength(s)..];
    WordsCons(s);
    WordsTrimStart(rest);
    WordsCons(TrimStart(rest));
  }

  /** The tokens of words joined by single blanks are those words. */
  lemma {:induction false} WordsJoin(ws: seq<string>)
    requires forall i :: 0 <= i < |ws| ==> |ws[i]| > 0 && NoSpace(ws[i])
    ensures Words(Join(ws, ' ')) == ws
  {
    if |ws| == 1 {
      var w := ws[0];
      TokenLengthWord(w, []);
      assert w + [] == w;
      WordsCons(w);
    } else if |ws| > 1 {
      var w := ws[0];
      var rest := Join(ws[1..], ' ');
      WordsJoin(ws[1..]);
      JoinCons(w, ws[1..], ' ');
      assert [w] + ws[1..] == ws;
      var s := w + (" " + rest);
      assert Join(ws, ' ') == s;
      TokenLengthWord(w, " " + rest);
      WordsCons(s);
      assert s[..|w|] == w;
      assert s[|w|..] == " " + rest;
      JoinFirst(ws[1..], ' ');
      TrimStartSpaces(" ", rest);
      WordsTrimStart(" " + rest);
    }
  }

  lemma JoinFirst(ws: seq<string>, c: char)
    requires |ws| > 0 && |ws[0]| > 0
    ensures |Join(ws, c)| > 0 && Join(ws, c)[0] == ws[0][0]
  {
  }

  lemma {:induction false} TokenLengthWord(w: string, z: string)
    requires NoSpace(w)
    requires z == [] || IsSpace(z[0])
    ensures TokenLength(w + z) == |w|
  {
    if w != [] {
      assert (w + z)[1..] == w[1..] + z;
      TokenLengthWord(w[1..], z);
    } else {
      assert w + z == z;
    }
  }

  /** `split(/\s+/)` of a word, a blank and a word start separates off the first word. */
  lemma {:induction false} SplitOnSpacesCons(w: string, rest: string)
    requires |w| > 0 && NoSpace(w)
    requires rest == [] || !IsSpace(rest[0])
    ensures SplitOnSpaces(w + " " + rest) == [w] + SplitOnSpaces(rest)
    decreases |w|
  {
    var s := w + " " + rest;
    assert s[0] == w[0] && !IsSpace(s[0]);
    assert s[1..] == w[1..] + " " + rest;
    if |w| == 1 {
      assert s[1..] == " " + rest;
      assert (" " + rest)[1..] == rest;
      assert TrimStart(rest) == rest;
      assert SplitOnSpaces(s[1..]) == [""] + SplitOnSpaces(rest);
      assert [w[0]] + "" == w;
    } else {
      SplitOnSpacesCons(w[1..], rest);
      assert [w[0]] + w[1..] == w;
    }
  }

  /** The words of blanks, a word, and a remainder that starts with a blank. */
  lemma WordsAfterSpaces(sp: string, w: string, rest: string)
    requires AllSpace(sp) && |w| > 0 && NoSpace(w)
    requires rest == [] || IsSpace(rest[0])
    ensures Words(sp + w + rest) == [w] + Words(rest)
  {
    assert sp + w + rest == sp + (w + rest);
    TrimStartSpaces(sp, w + rest);
    TokenLengthWord(w, rest);
    assert (w + rest)[..|w|] == w && (w + rest)[|w|..] == rest;
  }

  lemma WordsOfSpaces(sp: string)
    requires AllSpace(sp)
    ensures Words(sp) == []
  {
    TrimStartSpaces(sp, []);
    assert sp + [] == sp;
  }

  /** `split(/\s+/)` of a single word is that word. */
  lemma {:induction false} SplitOnSpacesWord(w: string)
    requires NoSpace(w)
    ensures SplitOnSpaces(w) == [w]
  {
    if w != [] {
      SplitOnSpacesWord(w[1..]);
      assert [w[0]] + w[1..] == w;
    }
  }

  /** A string is the text before a blank at `k`, the blank, and the text after it. */
  lemma SplitAtBlank(s: string, k: nat)
    requires k < |s| && s[k] == ' '
    ensures s == s[..k] + " " + s[k + 1..]
  {
  }
}
