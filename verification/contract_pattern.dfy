/** The source scanner behind `findContractNames`: the global regular expression
      contract\s+([a-zA-Z0-9_]+)\s+(?:is\s+[^{]+)?\s*\{
    run with repeated `exec` calls, written as a position-indexed matcher.

    Every text the pattern matches holds no `{` before its final `{`, and the
    captured name is followed by whitespace, so at a given start position the
    pattern has at most one match: the name is the whole run of word characters
    and the match ends just past the first `{`. Backtracking order therefore never
    decides anything, and `MatchAt` computes that single match directly;
    `MatchAtSound` and `MatchAtComplete` prove it agrees with the pattern read as
    a language (`Derives`). */
module ContractPattern {
  import opened Wrappers
  import opened Text

  const Keyword: string := "contract"

  /** One successful `exec`: the match index, where group 1 starts, group 1
      itself, and `lastIndex` after the match. */
  datatype Match = Match(start: nat, nameStart: nat, name: string, end: nat)

  /** The three character classes the pattern repeats: `\s`, `[a-zA-Z0-9_]`
      and `[^{]`. */
  datatype CharClass = Space | Word | NotBrace

  predicate InClass(cls: CharClass, c: char) {
    match cls
    case Space => IsSpace(c)
    case Word => IsWordChar(c)
    case NotBrace => c != '{'
  }

  /** End of the longest run of characters of class `cls` that starts at `i`. */
  function SkipWhile(text: string, i: nat, cls: CharClass): (r: nat)
    requires i <= |text|
    ensures i <= r <= |text|
    ensures forall k :: i <= k < r ==> InClass(cls, text[k])
    ensures r == |text| || !InClass(cls, text[r])
    decreases |text| - i
  {
    if i < |text| && InClass(cls, text[i]) then SkipWhile(text, i + 1, cls) else i
  }

  /** What every match promises about the text it was found in: `contract`, then
      at least one whitespace, then a non-empty name of word characters followed by
      whitespace, and a match that ends just past the first `{` after its start. */
  predicate WellFormed(text: string, m: Match) {
    && m.start + |Keyword| < m.nameStart
    && m.nameStart + |m.name| < m.end <= |text|
    && text[m.start..m.start + |Keyword|] == Keyword
    && (forall k :: m.start + |Keyword| <= k < m.nameStart ==> InClass(Space, text[k]))
    && |m.name| > 0
    && text[m.nameStart..m.nameStart + |m.name|] == m.name
    && (forall k :: 0 <= k < |m.name| ==> InClass(Word, m.name[k]))
    && InClass(Space, text[m.nameStart + |m.name|])
    && text[m.end - 1] == '{'
    && (forall k :: m.start <= k < m.end - 1 ==> InClass(NotBrace, text[k]))
  }

  /** `is`, one whitespace and one character other than `{` at `s`: the least
      that `is\s+[^{]+` needs before the closing `{`. */
  predicate ClauseStartsAt(text: string, s: nat) {
    s + 3 < |text| && text[s] == 'i' && text[s + 1] == 's' && InClass(Space, text[s + 2]) && InClass(NotBrace, text[s + 3])
  }

  /** The tail `(?:is\s+[^{]+)?\s*\{` tried at `s`, the first position after the
      whitespace that follows the name: the index of the closing `{`, if any. */
  function ClosingBrace(text: string, s: nat): Option<nat>
    requires s <= |text|
  {
    if s == |text| then None
    else if text[s] == '{' then Some(s)
    else if ClauseStartsAt(text, s) then
      var c := SkipWhile(text, s + 3, NotBrace);
      if c < |text| then Some(c) else None
    else None
  }

  /** The pattern anchored at position `p`: what one step of `exec` tries
      before moving on to `p + 1`. `MatchAtExactly` and `MatchAtWellFormed` state
      what it computes. */
  function MatchAt(text: string, p: nat): Option<Match> {
    if !(p + |Keyword| <= |text| && text[p..p + |Keyword|] == Keyword) then None
    else
      var a := SkipWhile(text, p + |Keyword|, Space);
      var q := SkipWhile(text, a, Word);
      var s := SkipWhile(text, q, Space);
      if a == p + |Keyword| || q == a || s == q then None
      else
        match ClosingBrace(text, s)
        case None => None
        case Some(c) => Some(Match(p, a, text[a..q], c + 1))
  }

  lemma KeywordHasNoBrace(text: string, p: nat)
    requires p + |Keyword| <= |text| && text[p..p + |Keyword|] == Keyword
    ensures forall k :: p <= k < p + |Keyword| ==> InClass(NotBrace, text[k])
  {
    forall k | p <= k < p + |Keyword|
      ensures InClass(NotBrace, text[k])
    {
      assert text[k] == Keyword[k - p];
    }
  }

  /** Boundaries of the pattern's parts in a matched text:
      `contract` at p, `\s+` on [p+8, a), the name on [a, q), `\s+` on [q, s),
      the optional `is\s+[^{]+` on [s, t) (absent when t == s, otherwise `is`,
      then `\s+` on [s+2, u) and `[^{]+` on [u, t)), `\s*` on [t, c), `{` at c. */
  datatype Split = Split(a: nat, q: nat, s: nat, u: nat, t: nat, c: nat)

  /** `w` splits text[p..w.c + 1] into the parts of the pattern. */
  ghost predicate Derives(text: string, p: nat, w: Split) {
    && p + |Keyword| < w.a < w.q < w.s <= w.t <= w.c < |text|
    && text[p..p + |Keyword|] == Keyword
    && (forall k :: p + |Keyword| <= k < w.a ==> InClass(Space, text[k]))
    && (forall k :: w.a <= k < w.q ==> InClass(Word, text[k]))
    && (forall k :: w.q <= k < w.s ==> InClass(Space, text[k]))
    && TailDerives(text, w)
  }

  /** The tail of a split, from `s` on, is what `ClosingBrace` finds. */
  ghost predicate TailDerives(text: string, w: Split) {
    && w.s <= w.t <= w.c < |text|
    && (|| w.t == w.s
        || (&& w.s + 2 < w.u < w.t
            && text[w.s] == 'i' && text[w.s + 1] == 's'
            && (forall k :: w.s + 2 <= k < w.u ==> InClass(Space, text[k]))
            && (forall k :: w.u <= k < w.t ==> InClass(NotBrace, text[k]))))
    && (forall k :: w.t <= k < w.c ==> InClass(Space, text[k]))
    && text[w.c] == '{'
  }

  lemma ClosingBraceSound(text: string, s: nat)
    requires s <= |text| && ClosingBrace(text, s).Some?
    ensures var c := ClosingBrace(text, s).value;
      TailDerives(text, if text[s] == '{' then Split(0, 0, s, s, s, c) else Split(0, 0, s, s + 3, c, c))
  {
  }

  /** When the tail starts at a non-whitespace character, `ClosingBrace` finds the
      brace of every split of it. */
  lemma ClosingBraceComplete(text: string, w: Split)
    requires TailDerives(text, w) && !InClass(Space, text[w.s])
    ensures ClosingBrace(text, w.s) == Some(w.c)
  {
    if w.t == w.s {
      assert !InClass(Space, text[w.c]);
    } else {
      assert ClauseStartsAt(text, w.s);
      var c := SkipWhile(text, w.s + 3, NotBrace);
      assert !InClass(NotBrace, text[w.c]);
      assert c == w.c;
    }
  }

  /** The runs `MatchAt` skips, followed by a tail that `ClosingBrace` accepts,
      form a split. */
  lemma RunsDerive(text: string, p: nat, a: nat, q: nat, s: nat, c: nat) returns (w: Split)
    requires p + |Keyword| <= |text| && text[p..p + |Keyword|] == Keyword
    requires a == SkipWhile(text, p + |Keyword|, Space) && a != p + |Keyword|
    requires q == SkipWhile(text, a, Word) && q != a
    requires s == SkipWhile(text, q, Space) && s != q
    requires ClosingBrace(text, s) == Some(c)
    ensures Derives(text, p, w) && w.a == a && w.q == q && w.c == c
  {
    ClosingBraceSound(text, s);
    w := if text[s] == '{' then Split(a, q, s, s, s, c) else Split(a, q, s, s + 3, c, c);
  }

  /** Whatever `MatchAt` finds is a match of the pattern, with group 1 and the end
      read off a split. */
  lemma MatchAtSound(text: string, p: nat)
    requires MatchAt(text, p).Some?
    ensures exists w :: Derives(text, p, w) && MatchAt(text, p).value == Match(p, w.a, text[w.a..w.q], w.c + 1)
  {
    var a := SkipWhile(text, p + |Keyword|, Space);
    var q := SkipWhile(text, a, Word);
    var s := SkipWhile(text, q, Space);
    var w := RunsDerive(text, p, a, q, s, ClosingBrace(text, s).value);
  }

  /** In a split, the whitespace after `contract` ends where the name starts and
      the name ends where the whitespace after it starts. */
  lemma NameRuns(text: string, p: nat, w: Split)
    requires Derives(text, p, w)
    ensures SkipWhile(text, p + |Keyword|, Space) == w.a
    ensures SkipWhile(text, w.a, Word) == w.q
  {
    assert !InClass(Space, text[w.a]);
    SkipWhileStops(text, p + |Keyword|, w.a, Space);
    assert !InClass(Word, text[w.q]);
    SkipWhileStops(text, w.a, w.q, Word);
  }

  /** The tail of a split, re-cut so that it starts where the whitespace after
      the name ends, keeping its brace. */
  lemma TailAfterSpaces(text: string, p: nat, w: Split) returns (v: Split)
    requires Derives(text, p, w)
    ensures v.s == SkipWhile(text, w.q, Space) && v.c == w.c
    ensures TailDerives(text, v) && !InClass(Space, text[v.s])
  {
    if w.t == w.s {
      assert !InClass(Space, text[w.c]);
      SkipWhileStops(text, w.q, w.c, Space);
      v := Split(w.a, w.q, w.c, w.c, w.c, w.c);
    } else {
      assert !InClass(Space, text[w.s]);
      SkipWhileStops(text, w.q, w.s, Space);
      v := w;
    }
  }

  /** Every match of the pattern at `p` is the one `MatchAt` finds. */
  lemma MatchAtComplete(text: string, p: nat, w: Split)
    requires Derives(text, p, w)
    ensures MatchAt(text, p) == Some(Match(p, w.a, text[w.a..w.q], w.c + 1))
  {
    NameRuns(text, p, w);
    var v := TailAfterSpaces(text, p, w);
    ClosingBraceComplete(text, v);
  }

  /** The pattern matches at `p` exactly when `MatchAt` finds something there. */
  lemma MatchAtExactly(text: string, p: nat)
    ensures MatchAt(text, p).Some? <==> exists w :: Derives(text, p, w)
  {
    if MatchAt(text, p).Some? {
      MatchAtSound(text, p);
    }
    if w :| Derives(text, p, w) {
      MatchAtComplete(text, p, w);
    }
  }

  /** The parts of a split lie where `WellFormed` says they do. */
  lemma DerivesWellFormed(text: string, p: nat, w: Split)
    requires Derives(text, p, w)
    ensures WellFormed(text, Match(p, w.a, text[w.a..w.q], w.c + 1))
  {
    var name := text[w.a..w.q];
    assert forall k :: 0 <= k < |name| ==> name[k] == text[w.a + k];
    KeywordHasNoBrace(text, p);
    assert forall k :: p <= k < w.c ==> InClass(NotBrace, text[k]) by {
      forall k | p <= k < w.c ensures InClass(NotBrace, text[k]) {
        if k < p + |Keyword| {
        } else if k < w.a {
          assert InClass(Space, text[k]);
        } else if k < w.q {
          assert InClass(Word, text[k]);
        } else if k < w.s {
          assert InClass(Space, text[k]);
        } else if k < w.t {
          if k < w.s + 2 {
          } else if k < w.u {
            assert InClass(Space, text[k]);
          }
        } else {
          assert InClass(Space, text[k]);
        }
      }
    }
  }

  /** A match found at `p` starts at `p` and satisfies `WellFormed`. */
  lemma MatchAtWellFormed(text: string, p: nat)
    ensures MatchAt(text, p).Some? ==> MatchAt(text, p).value.start == p && WellFormed(text, MatchAt(text, p).value)
  {
    if MatchAt(text, p).Some? {
      MatchAtSound(text, p);
      var w :| Derives(text, p, w) && MatchAt(text, p).value == Match(p, w.a, text[w.a..w.q], w.c + 1);
      DerivesWellFormed(text, p, w);
    }
  }

  /** A match found at `p` starts there and ends past it, inside the text. */
  lemma MatchAtAdvances(text: string, p: nat)
    ensures MatchAt(text, p).Some? ==> MatchAt(text, p).value.start == p < MatchAt(text, p).value.end <= |text|
  {
    MatchAtWellFormed(text, p);
  }

  lemma AllAdvance(text: string)
    ensures forall p :: 0 <= p <= |text| && MatchAt(text, p).Some? ==> MatchAt(text, p).value.start == p < MatchAt(text, p).value.end <= |text|
  {
    forall p | 0 <= p <= |text| && MatchAt(text, p).Some?
      ensures MatchAt(text, p).value.start == p < MatchAt(text, p).value.end <= |text|
    {
      MatchAtAdvances(text, p);
    }
  }

  /** The outcome of trying the pattern at every position 0 .. |text|. */
  function Attempts(text: string): (found: seq<Option<Match>>)
    ensures |found| == |text| + 1
    ensures forall p :: 0 <= p < |found| ==> found[p] == MatchAt(text, p)
    ensures IsAttemptTable(found)
  {
    var found := seq(|text| + 1, p requires 0 <= p <= |text| => MatchAt(text, p));
    assert forall p :: 0 <= p < |found| ==> found[p] == MatchAt(text, p);
    AllAdvance(text);
    found
  }

  /** A table of match attempts: the entry at `p` is None or a match that starts at
      `p` and ends past it, no later than the last position. */
  predicate IsAttemptTable(found: seq<Option<Match>>) {
    && |found| >= 1
    && forall p :: 0 <= p < |found| && found[p].Some? ==> found[p].value.start == p < found[p].value.end <= |found| - 1
  }

  /** One `exec` call with `lastIndex == from`, reading the attempt table: the
      first match starting at or after `from`, or None, on which the loop in
      `findContractNames` stops. */
  function NextMatch(found: seq<Option<Match>>, from: nat): (r: Option<Match>)
    requires IsAttemptTable(found) && from < |found|
    ensures r.Some? ==> from <= r.value.start < |found| && found[r.value.start] == r
    ensures forall k :: from <= k < |found| && (r.None? || k < r.value.start) ==> found[k].None?
    decreases |found| - from
  {
    if found[from].Some? then found[from]
    else if from == |found| - 1 then None
    else NextMatch(found, from + 1)
  }

  /** Repeated `exec` calls from `lastIndex == from` until one fails; each call
      resumes where the previous match ended, so matches never overlap. */
  function ScanFrom(found: seq<Option<Match>>, from: nat): (ms: seq<Match>)
    requires IsAttemptTable(found) && from < |found|
    ensures forall i :: 0 <= i < |ms| ==> from <= ms[i].start < |found| && found[ms[i].start] == Some(ms[i])
    ensures forall i :: 0 <= i < |ms| - 1 ==> ms[i].end <= ms[i + 1].start
    decreases |found| - from
  {
    match NextMatch(found, from)
    case None => []
    case Some(m) => [m] + ScanFrom(found, m.end)
  }

  /** Every match of the pattern in `text`, as the `while (exec)` loop finds them. */
  function Matches(text: string): seq<Match> {
    ScanFrom(Attempts(text), 0)
  }

  /** Group 1 of every match in `text`, in textual order. */
  function ContractNames(text: string): seq<string> {
    var ms := Matches(text);
    seq(|ms|, i requires 0 <= i < |ms| => ms[i].name)
  }

  /** Every match `Matches` reports is a match of the pattern at its start
      position, and the matches come in textual order without overlapping. */
  lemma MatchesSound(text: string)
    ensures forall i :: 0 <= i < |Matches(text)| ==>
              MatchAt(text, Matches(text)[i].start) == Some(Matches(text)[i]) && WellFormed(text, Matches(text)[i])
    ensures forall i :: 0 <= i < |Matches(text)| - 1 ==> Matches(text)[i].end <= Matches(text)[i + 1].start
  {
    var ms := Matches(text);
    forall i | 0 <= i < |ms|
      ensures MatchAt(text, ms[i].start) == Some(ms[i]) && WellFormed(text, ms[i])
    {
      MatchAtWellFormed(text, ms[i].start);
    }
  }

  /** `p` is the start of one of `ms` or lies strictly inside one of them. */
  predicate Covered(ms: seq<Match>, p: nat) {
    exists i :: 0 <= i < |ms| && ms[i].start <= p < ms[i].end
  }

  /** The scan misses no match of the pattern except those that begin inside an
      earlier match: every position where the pattern matches is either the start
      of a reported match or lies strictly inside one. */
  lemma {:induction false} ScanFromCovers(found: seq<Option<Match>>, from: nat, p: nat)
    requires IsAttemptTable(found) && from <= p < |found| && found[p].Some?
    ensures Covered(ScanFrom(found, from), p)
    decreases |found| - from
  {
    var ms := ScanFrom(found, from);
    var m := NextMatch(found, from).value;
    assert ms == [m] + ScanFrom(found, m.end);
    if p < m.end {
      assert ms[0].start <= p < ms[0].end;
    } else {
      ScanFromCovers(found, m.end, p);
      var rest := ScanFrom(found, m.end);
      var i :| 0 <= i < |rest| && rest[i].start <= p < rest[i].end;
      assert ms[i + 1] == rest[i];
    }
  }

  /** Text-level form of `ScanFromCovers`. */
  lemma MatchesComplete(text: string, p: nat)
    requires MatchAt(text, p).Some?
    ensures Covered(Matches(text), p)
  {
    var found := Attempts(text);
    MatchAtAdvances(text, p);
    assert found[p] == MatchAt(text, p);
    ScanFromCovers(found, 0, p);
  }

  /** A text in which the pattern matches nowhere yields no matches. */
  lemma NoAttemptNoMatches(text: string)
    requires forall p :: 0 <= p <= |text| ==> MatchAt(text, p).None?
    ensures Matches(text) == []
  {
  }

  /** The keyword is not at `p` when its `j`-th letter is not. */
  lemma KeywordAbsent(text: string, p: nat, j: nat)
    requires j < |Keyword| && p + j < |text| && text[p + j] != Keyword[j]
    ensures MatchAt(text, p).None?
  {
    if p + |Keyword| <= |text| {
      assert text[p..p + |Keyword|][j] == text[p + j];
    }
  }

  /** The keyword spelled out letter by letter. */
  lemma KeywordAt(text: string, p: nat)
    requires p + |Keyword| <= |text|
    requires text[p] == 'c' && text[p + 1] == 'o' && text[p + 2] == 'n' && text[p + 3] == 't'
    requires text[p + 4] == 'r' && text[p + 5] == 'a' && text[p + 6] == 'c' && text[p + 7] == 't'
    ensures text[p..p + |Keyword|] == Keyword
  {
  }

  /** A run of class `cls` from `i` that stops at `j` is what `SkipWhile` skips. */
  lemma SkipWhileStops(text: string, i: nat, j: nat, cls: CharClass)
    requires i <= j <= |text|
    requires forall k :: i <= k < j ==> InClass(cls, text[k])
    requires j == |text| || !InClass(cls, text[j])
    ensures SkipWhile(text, i, cls) == j
  {
  }

  /** `text` holds `contract name {` at `p`, single spaces around the name. */
  predicate PlainDeclarationAt(text: string, p: nat, name: string) {
    && p + 11 + |name| <= |text| && text[p..p + |Keyword|] == Keyword
    && |name| > 0 && (forall k :: 0 <= k < |name| ==> text[p + 9 + k] == name[k] && IsWordChar(name[k]))
    && IsSpace(text[p + 8]) && IsSpace(text[p + 9 + |name|]) && text[p + 10 + |name|] == '{'
  }

  /** Such a declaration is the match at `p`. */
  lemma PlainDeclaration(text: string, p: nat, name: string)
    requires PlainDeclarationAt(text, p, name)
    ensures MatchAt(text, p) == Some(Match(p, p + 9, name, p + 11 + |name|))
  {
    var n := |name|;
    assert text[p + 9..p + 9 + n] == name;
    SkipWhileStops(text, p + 8, p + 9, Space);
    SkipWhileStops(text, p + 9, p + 9 + n, Word);
    SkipWhileStops(text, p + 9 + n, p + 10 + n, Space);
  }

  /** `text` holds `contract name is B {` at `p`, single spaces throughout,
      with a base name of `b` characters other than `{`. */
  predicate InheritingDeclarationAt(text: string, p: nat, name: string, b: nat) {
    && p + 15 + |name| + b <= |text| && text[p..p + |Keyword|] == Keyword
    && |name| > 0 && (forall k :: 0 <= k < |name| ==> text[p + 9 + k] == name[k] && IsWordChar(name[k]))
    && IsSpace(text[p + 8]) && IsSpace(text[p + 9 + |name|])
    && text[p + 10 + |name|] == 'i' && text[p + 11 + |name|] == 's' && IsSpace(text[p + 12 + |name|])
    && b > 0 && (forall k :: p + 13 + |name| <= k < p + 14 + |name| + b ==> text[k] != '{')
    && text[p + 14 + |name| + b] == '{'
  }

  /** Such a declaration is the match at `p`, ending at the brace after `B`. */
  lemma InheritingDeclaration(text: string, p: nat, name: string, b: nat)
    requires InheritingDeclarationAt(text, p, name, b)
    ensures MatchAt(text, p) == Some(Match(p, p + 9, name, p + 15 + |name| + b))
  {
    var n := |name|;
    assert text[p + 9..p + 9 + n] == name;
    SkipWhileStops(text, p + 8, p + 9, Space);
    SkipWhileStops(text, p + 9, p + 9 + n, Word);
    SkipWhileStops(text, p + 9 + n, p + 10 + n, Space);
    assert ClauseStartsAt(text, p + 10 + n);
    SkipWhileStops(text, p + 13 + n, p + 14 + n + b, NotBrace);
  }

  /** A declaration keeps its shape inside a longer text. */
  lemma PlainDeclarationInContext(a: string, t: string, c: string, p: nat, name: string)
    requires PlainDeclarationAt(t, p, name)
    ensures PlainDeclarationAt(a + t + c, |a| + p, name)
  {
    var text := a + t + c;
    assert text[|a| + p..|a| + p + |Keyword|] == t[p..p + |Keyword|];
  }

  lemma InheritingDeclarationInContext(a: string, t: string, c: string, p: nat, name: string, b: nat)
    requires InheritingDeclarationAt(t, p, name, b)
    ensures InheritingDeclarationAt(a + t + c, |a| + p, name, b)
  {
    var text := a + t + c;
    assert text[|a| + p..|a| + p + |Keyword|] == t[p..p + |Keyword|];
    forall k | |a| + p + 13 + |name| <= k < |a| + p + 14 + |name| + b
      ensures text[k] != '{'
    {
      assert text[k] == t[k - |a|];
    }
  }

  /** `exec` from `from` stops at the first attempt that succeeds, or fails at
      the end of the table. */
  lemma {:induction false} NextMatchAt(found: seq<Option<Match>>, from: nat, p: nat)
    requires IsAttemptTable(found) && from <= p < |found|
    requires forall k :: from <= k < p ==> found[k].None?
    requires found[p].Some? || p == |found| - 1
    ensures NextMatch(found, from) == found[p]
    decreases p - from
  {
    if from < p {
      NextMatchAt(found, from + 1, p);
    }
  }

  /** One step of the scan. */
  lemma ScanFromStep(found: seq<Option<Match>>, from: nat)
    requires IsAttemptTable(found) && from < |found|
    ensures NextMatch(found, from).None? ==> ScanFrom(found, from) == []
    ensures NextMatch(found, from).Some? ==>
              ScanFrom(found, from) == [NextMatch(found, from).value] + ScanFrom(found, NextMatch(found, from).value.end)
  {
  }

  /** Without whitespace between the name and `{` nothing matches. */
  lemma NoSpaceBeforeBrace()
    ensures Matches("contract Foo{") == []
  {
    var text := "contract Foo{";
    assert forall p :: 0 <= p <= |text| ==> MatchAt(text, p).None?;
    NoAttemptNoMatches(text);
  }

  const AbstractBase: string := "abstract contract Base {"

  lemma AbstractBaseMisses()
    ensures forall p :: 0 <= p <= 24 && p != 9 ==> MatchAt(AbstractBase, p).None?
  {
    var text := AbstractBase;
    forall p | 0 <= p <= 24 && p != 9
      ensures MatchAt(text, p).None?
    {
      if p == 6 || p == 15 {
        KeywordAbsent(text, p, 1);
      } else if p < 17 {
        assert text[p] != 'c' by {
          if p < 6 {} else if p < 9 {} else if p < 15 {} else {}
        }
        KeywordAbsent(text, p, 0);
      }
    }
  }

  lemma AbstractBaseMatch()
    ensures MatchAt(AbstractBase, 9) == Some(Match(9, 18, "Base", 24))
  {
    var text := AbstractBase;
    assert PlainDeclarationAt(text, 9, "Base") by {
      KeywordAt(text, 9);
    }
    PlainDeclaration(text, 9, "Base");
  }

  /** No word boundary is required before `contract`: `abstract contract Base {`
      declares `Base`. */
  lemma AbstractContract()
    ensures Matches(AbstractBase) == [Match(9, 18, "Base", 24)]
    ensures ContractNames(AbstractBase) == ["Base"]
  {
    var found := Attempts(AbstractBase);
    AbstractBaseMisses();
    AbstractBaseMatch();
    var m := Match(9, 18, "Base", 24);
    NextMatchAt(found, 0, 9);
    NextMatchAt(found, 24, 24);
    ScanFromStep(found, 0);
    ScanFromStep(found, 24);
  }

  const FooDeclaration: string := Keyword + " Foo {}"
  const BarDeclaration: string := Keyword + " Bar is Foo {}"
  /** `contract Foo {} contract Bar is Foo {}`. */
  const TwoDeclarations: string := FooDeclaration + " " + BarDeclaration

  lemma TwoDeclarationsMisses()
    ensures forall p :: 1 <= p <= 38 && p != 16 ==> MatchAt(TwoDeclarations, p).None?
  {
    var text := TwoDeclarations;
    forall p | 1 <= p <= 38 && p != 16
      ensures MatchAt(text, p).None?
    {
      if p == 6 || p == 22 {
        KeywordAbsent(text, p, 1);
      } else if p < 31 {
        assert text[p] != 'c' by {
          if p < 6 {} else if p < 16 {} else if p < 22 {} else {}
        }
        KeywordAbsent(text, p, 0);
      }
    }
  }

  lemma FooDeclarationShape()
    ensures PlainDeclarationAt(FooDeclaration, 0, "Foo")
  {
    assert FooDeclaration[0..|Keyword|] == Keyword;
    assert forall k :: 0 <= k < 3 ==> FooDeclaration[9 + k] == "Foo"[k] && IsWordChar("Foo"[k]);
  }

  lemma BarDeclarationShape()
    ensures InheritingDeclarationAt(BarDeclaration, 0, "Bar", 3)
  {
    assert BarDeclaration[0..|Keyword|] == Keyword;
    assert forall k :: 0 <= k < 3 ==> BarDeclaration[9 + k] == "Bar"[k] && IsWordChar("Bar"[k]);
    assert forall k :: 16 <= k < 20 ==> BarDeclaration[k] != '{';
  }

  lemma TwoDeclarationsFirst()
    ensures MatchAt(TwoDeclarations, 0) == Some(Match(0, 9, "Foo", 14))
  {
    FooDeclarationShape();
    PlainDeclarationInContext("", FooDeclaration, " " + BarDeclaration, 0, "Foo");
    assert "" + FooDeclaration + (" " + BarDeclaration) == TwoDeclarations;
    PlainDeclaration(TwoDeclarations, 0, "Foo");
  }

  lemma TwoDeclarationsSecond()
    ensures MatchAt(TwoDeclarations, 16) == Some(Match(16, 25, "Bar", 37))
  {
    BarDeclarationShape();
    InheritingDeclarationInContext(FooDeclaration + " ", BarDeclaration, "", 0, "Bar", 3);
    assert FooDeclaration + " " + BarDeclaration + "" == TwoDeclarations;
    InheritingDeclaration(TwoDeclarations, 16, "Bar", 3);
  }

  /** Two declarations in one text come out in textual order; the second one's
      `is` clause names the first, which is not reported again. */
  lemma TwoDeclarationsExample()
    ensures Matches(TwoDeclarations) == [Match(0, 9, "Foo", 14), Match(16, 25, "Bar", 37)]
    ensures ContractNames(TwoDeclarations) == ["Foo", "Bar"]
  {
    var found := Attempts(TwoDeclarations);
    TwoDeclarationsMisses();
    TwoDeclarationsFirst();
    TwoDeclarationsSecond();
    NextMatchAt(found, 0, 0);
    NextMatchAt(found, 14, 16);
    NextMatchAt(found, 37, 38);
    ScanFromStep(found, 0);
    ScanFromStep(found, 14);
    ScanFromStep(found, 37);
  }
}
