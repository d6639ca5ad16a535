/**
  Highlighting keywords in a review page: a leftmost-longest matcher whose HTML can be read back.
  `lower` is the character-wise lower-casing.
 */
module Highlight {
  import opened Sequences
  import opened Wrappers

  type Span = (nat, nat)

  const OPEN := "<mark class=\"resume-kw\">"
  const CLOSE := "</mark>"

  // ----- escaping and reading back -----

  function EscapeChar(c: char): string {
    if c == '&' then "&amp;"
    else if c == '<' then "&lt;"
    else if c == '>' then "&gt;"
    else if c == '"' then "&quot;"
    else if c == '\'' then "&#x27;"
    else [c]
  }

  function Escape(s: string): string {
    if s == "" then "" else EscapeChar(s[0]) + Escape(s[1..])
  }

  /** No character that could open or close a tag or an attribute is left. */
  lemma {:induction false} EscapedIsSafe(s: string)
    ensures forall c | c in Escape(s) :: c !in {'<', '>', '"', '\''}
  {
    if s != "" { EscapedIsSafe(s[1..]); }
  }

  /** What a browser shows: the characters with, for each, whether it is inside a mark. */
  type Shown = seq<(char, bool)>

  predicate StartsWith(s: string, prefix: string) {
    |prefix| <= |s| && s[..|prefix|] == prefix
  }

  function Entity(s: string): Option<(char, nat)> {
    if StartsWith(s, "&amp;") then Some(('&', 5))
    else if StartsWith(s, "&lt;") then Some(('<', 4))
    else if StartsWith(s, "&gt;") then Some(('>', 4))
    else if StartsWith(s, "&quot;") then Some(('"', 6))
    else if StartsWith(s, "&#x27;") then Some(('\'', 6))
    else None
  }

  function Read(html: string, marked: bool): Shown
    decreases |html|
  {
    if html == "" then []
    else if StartsWith(html, OPEN) then Read(html[|OPEN|..], true)
    else if StartsWith(html, CLOSE) then Read(html[|CLOSE|..], false)
    else if Entity(html).Some? then
      [(Entity(html).value.0, marked)] + Read(html[Entity(html).value.1..], marked)
    else [(html[0], marked)] + Read(html[1..], marked)
  }

  function Uniform(s: string, marked: bool): Shown {
    seq(|s|, i requires 0 <= i < |s| => (s[i], marked))
  }

  lemma NotPrefix(s: string, prefix: string, i: nat)
    requires i < |prefix| && i < |s| && s[i] != prefix[i]
    ensures !StartsWith(s, prefix)
  {
    if |prefix| <= |s| { assert s[..|prefix|][i] == s[i]; }
  }

  lemma ReadChar(c: char, rest: string, marked: bool)
    ensures Read(EscapeChar(c) + rest, marked) == [(c, marked)] + Read(rest, marked)
  {
    var e := EscapeChar(c);
    var s := e + rest;
    assert s[|e|..] == rest;
    assert s[0] == e[0] != '<';
    NotPrefix(s, OPEN, 0);
    NotPrefix(s, CLOSE, 0);
    if |e| == 1 {
      NotPrefix(s, "&amp;", 0);
      NotPrefix(s, "&lt;", 0);
      NotPrefix(s, "&gt;", 0);
      NotPrefix(s, "&quot;", 0);
      NotPrefix(s, "&#x27;", 0);
    } else {
      assert s[..|e|] == e;
      EntityOfEscape(c, s);
    }
  }

  lemma EntityOfEscape(c: char, s: string)
    requires |EscapeChar(c)| > 1 && StartsWith(s, EscapeChar(c))
    ensures Entity(s) == Some((c, |EscapeChar(c)|))
  {
    assert s[1] == s[..|EscapeChar(c)|][1] == EscapeChar(c)[1];
    if c != '&' { NotPrefix(s, "&amp;", 1); }
    if c != '<' { NotPrefix(s, "&lt;", 1); }
    if c != '>' { NotPrefix(s, "&gt;", 1); }
    if c != '"' { NotPrefix(s, "&quot;", 1); }
  }

  lemma {:induction false} ReadEscaped(t: string, rest: string, marked: bool)
    ensures Read(Escape(t) + rest, marked) == Uniform(t, marked) + Read(rest, marked)
  {
    hide Read, EscapeChar;
    if t == "" {
      assert Escape(t) + rest == rest;
    } else {
      var tail := Escape(t[1..]) + rest;
      ReadChar(t[0], tail, marked);
      ReadEscaped(t[1..], rest, marked);
      assert Escape(t) + rest == EscapeChar(t[0]) + tail;
      UniformCons(t, marked);
    }
  }

  lemma UniformCons(t: string, marked: bool)
    requires t != ""
    ensures Uniform(t, marked) == [(t[0], marked)] + Uniform(t[1..], marked)
  {
  }

  lemma ReadTags(rest: string, marked: bool)
    ensures Read(OPEN + rest, marked) == Read(rest, true)
    ensures Read(CLOSE + rest, marked) == Read(rest, false)
  {
    assert (OPEN + rest)[..|OPEN|] == OPEN && (OPEN + rest)[|OPEN|..] == rest;
    assert (CLOSE + rest)[..|CLOSE|] == CLOSE && (CLOSE + rest)[|CLOSE|..] == rest;
    NotPrefix(CLOSE + rest, OPEN, 1);
  }

  // ----- spans and their rendering -----

  function End(spans: seq<Span>): nat {
    if spans == [] then 0 else spans[|spans|-1].1
  }

  /** Ascending, disjoint and non-empty. */
  predicate InText(spans: seq<Span>, n: nat) {
    spans != [] ==>
      InText(spans[..|spans|-1], n)
      && End(spans[..|spans|-1]) <= spans[|spans|-1].0 < spans[|spans|-1].1 <= n
  }

  function Marked(text: string, s: Span): string
    requires s.0 <= s.1 <= |text|
  {
    OPEN + Escape(text[s.0..s.1]) + CLOSE
  }

  /** The HTML up to the end of the last span. */
  function Head(text: string, spans: seq<Span>): string
    requires InText(spans, |text|)
  {
    if spans == [] then ""
    else
      var n := |spans| - 1;
      Head(text, spans[..n]) + Escape(text[End(spans[..n])..spans[n].0]) + Marked(text, spans[n])
  }

  lemma {:induction false} EndInText(spans: seq<Span>, n: nat)
    requires InText(spans, n)
    ensures End(spans) <= n
  {
  }

  function Render(text: string, spans: seq<Span>): string
    requires InText(spans, |text|)
  {
    EndInText(spans, |text|);
    Head(text, spans) + Escape(text[End(spans)..])
  }

  predicate Covered(spans: seq<Span>, i: nat) {
    exists k | 0 <= k < |spans| :: spans[k].0 <= i < spans[k].1
  }

  /** The first characters of the text, each marked when a span covers it. */
  ghost function Highlit(text: string, spans: seq<Span>, n: nat): (r: Shown)
    requires n <= |text|
    ensures |r| == n && forall i: nat | i < n :: r[i] == (text[i], Covered(spans, i))
  {
    if n == 0 then [] else Highlit(text, spans, n - 1) + [(text[n - 1], Covered(spans, n - 1))]
  }

  /** A stretch covered alike reads as uniform text. */
  lemma {:induction false} HighlitStretch(text: string, spans: seq<Span>, from: nat, until: nat, marked: bool)
    requires from <= until <= |text|
    requires forall i: nat | from <= i < until :: Covered(spans, i) == marked
    ensures Highlit(text, spans, until) == Highlit(text, spans, from) + Uniform(text[from..until], marked)
    decreases until
  {
    hide Covered;
    if from < until {
      HighlitStretch(text, spans, from, until - 1, marked);
      assert text[from..until] == text[from..until - 1] + [text[until - 1]];
      UniformMore(text[from..until - 1], text[until - 1], marked);
    } else {
      assert Uniform(text[from..until], marked) == [];
    }
  }

  lemma UniformMore(t: string, c: char, marked: bool)
    ensures Uniform(t + [c], marked) == Uniform(t, marked) + [(c, marked)]
  {
  }

  lemma {:induction false} HighlitAgrees(text: string, spans: seq<Span>, others: seq<Span>, n: nat)
    requires n <= |text| && forall i: nat | i < n :: Covered(spans, i) == Covered(others, i)
    ensures Highlit(text, spans, n) == Highlit(text, others, n)
  {
    hide Covered;
    if n > 0 { HighlitAgrees(text, spans, others, n - 1); }
  }

  lemma {:induction false} CoveredBeforeEnd(spans: seq<Span>, n: nat, i: nat)
    requires InText(spans, n) && Covered(spans, i)
    ensures i < End(spans)
  {
    var k :| 0 <= k < |spans| && spans[k].0 <= i < spans[k].1;
    if k < |spans| - 1 {
      assert spans[..|spans|-1][k] == spans[k];
      CoveredBeforeEnd(spans[..|spans|-1], n, i);
    }
  }

  lemma CoveredSplit(spans: seq<Span>, n: nat, i: nat)
    requires spans != []
    ensures Covered(spans, i) <==>
              Covered(spans[..|spans|-1], i) || spans[|spans|-1].0 <= i < spans[|spans|-1].1
  {
    var before := spans[..|spans|-1];
    if Covered(before, i) {
      var k :| 0 <= k < |before| && before[k].0 <= i < before[k].1;
      assert spans[k] == before[k];
    }
    if Covered(spans, i) {
      var k :| 0 <= k < |spans| && spans[k].0 <= i < spans[k].1;
      if k < |spans| - 1 { assert before[k] == spans[k]; }
    }
  }

  lemma HeadUnfold(text: string, spans: seq<Span>, s: Span)
    requires InText(spans + [s], |text|) && InText(spans, |text|) && End(spans) <= s.0 < s.1 <= |text|
    ensures Head(text, spans + [s]) == Head(text, spans) + Escape(text[End(spans)..s.0]) + Marked(text, s)
  {
    assert (spans + [s])[..|spans|] == spans;
  }

  lemma {:induction false} ReadHead(text: string, spans: seq<Span>, rest: string)
    requires InText(spans, |text|) && End(spans) <= |text|
    ensures Read(Head(text, spans) + rest, false) == Highlit(text, spans, End(spans)) + Read(rest, false)
  {
    hide Read, Escape, Highlit, Covered, Uniform;
    if spans == [] {
      assert Head(text, spans) + rest == rest;
      NothingShown(text);
    } else {
      var n := |spans| - 1;
      var before, s := spans[..n], spans[n];
      EndInText(before, |text|);
      var gap, hit := text[End(before)..s.0], text[s.0..s.1];
      var tail := Escape(gap) + (OPEN + (Escape(hit) + (CLOSE + rest)));
      Regroup(Head(text, before), Escape(gap), OPEN, Escape(hit), CLOSE, rest);
      ReadHead(text, before, tail);
      ReadGapAndMark(gap, hit, rest);
      HighlitSplit(text, before, s);
      assert before + [s] == spans;
    }
  }

  lemma Regroup(a: string, b: string, c: string, d: string, e: string, f: string)
    ensures a + b + (c + d + e) + f == a + (b + (c + (d + (e + f))))
  {
  }

  lemma ReadGapAndMark(gap: string, hit: string, rest: string)
    ensures Read(Escape(gap) + (OPEN + (Escape(hit) + (CLOSE + rest))), false)
            == Uniform(gap, false) + Uniform(hit, true) + Read(rest, false)
  {
    hide Read, Escape, Uniform;
    var r1 := CLOSE + rest;
    var r2 := Escape(hit) + r1;
    ReadEscaped(gap, OPEN + r2, false);
    ReadTags(r2, false);
    ReadEscaped(hit, r1, true);
    ReadTags(rest, true);
  }

  lemma NothingShown(text: string)
    ensures Highlit(text, [], 0) == []
  {
  }

  lemma CoveredIn(spans: seq<Span>, s: Span, n: nat, i: nat)
    requires InText(spans, n) && End(spans) <= s.0 < s.1
    ensures i < End(spans) ==> Covered(spans + [s], i) == Covered(spans, i)
    ensures End(spans) <= i < s.1 ==> Covered(spans + [s], i) == (s.0 <= i)
  {
    CoveredSplit(spans + [s], n, i);
    assert (spans + [s])[..|spans|] == spans;
    if Covered(spans, i) { CoveredBeforeEnd(spans, n, i); }
  }

  lemma HighlitSplit(text: string, spans: seq<Span>, s: Span)
    requires InText(spans, |text|) && End(spans) <= s.0 < s.1 <= |text|
    ensures Highlit(text, spans + [s], s.1)
            == Highlit(text, spans, End(spans))
               + (Uniform(text[End(spans)..s.0], false) + Uniform(text[s.0..s.1], true))
  {
    hide Covered, Highlit, Uniform;
    var all := spans + [s];
    forall i: nat | i < s.1
      ensures i < End(spans) ==> Covered(all, i) == Covered(spans, i)
      ensures End(spans) <= i ==> Covered(all, i) == (s.0 <= i)
    {
      CoveredIn(spans, s, |text|, i);
    }
    HighlitAgrees(text, all, spans, End(spans));
    HighlitStretch(text, all, End(spans), s.0, false);
    HighlitStretch(text, all, s.0, s.1, true);
  }

  /** Reading the page back gives the text, with exactly the characters inside spans marked. */
  lemma RenderReadsBack(text: string, spans: seq<Span>)
    requires InText(spans, |text|)
    ensures Read(Render(text, spans), false) == Highlit(text, spans, |text|)
  {
    hide Highlit, Head, Escape, Uniform;
    EndInText(spans, |text|);
    var tail := text[End(spans)..];
    ReadHead(text, spans, Escape(tail));
    assert Escape(tail) + "" == Escape(tail);
    ReadEscaped(tail, "", false);
    assert Uniform(tail, false) + Read("", false) == Uniform(tail, false);
    NothingAfterEnd(text, spans);
  }

  lemma NothingAfterEnd(text: string, spans: seq<Span>)
    requires InText(spans, |text|) && End(spans) <= |text|
    ensures Highlit(text, spans, End(spans)) + Uniform(text[End(spans)..], false) == Highlit(text, spans, |text|)
  {
    hide Covered, Highlit, Uniform;
    forall i: nat | End(spans) <= i < |text| ensures !Covered(spans, i) {
      if Covered(spans, i) { CoveredBeforeEnd(spans, |text|, i); }
    }
    HighlitStretch(text, spans, End(spans), |text|, false);
    assert text[End(spans)..|text|] == text[End(spans)..];
  }

  // ----- which spans -----

  predicate OccursAt(text: string, term: string, i: nat, lower: char -> char) {
    term != "" && i + |term| <= |text| && forall k | 0 <= k < |term| :: lower(text[i + k]) == lower(term[k])
  }

  /** The longest of the terms that occur here. */
  ghost predicate LongestAt(text: string, terms: set<string>, s: Span, lower: char -> char) {
    && (exists term | term in terms :: OccursAt(text, term, s.0, lower) && s.1 == s.0 + |term|)
    && forall term | term in terms && OccursAt(text, term, s.0, lower) :: s.0 + |term| <= s.1
  }

  /** Disjoint spans, each the longest term at its start, and no term starting outside a span. */
  ghost predicate IsHighlighting(text: string, terms: set<string>, spans: seq<Span>, lower: char -> char) {
    && InText(spans, |text|)
    && (forall k | 0 <= k < |spans| :: LongestAt(text, terms, spans[k], lower))
    && forall term, i: nat | term in terms && OccursAt(text, term, i, lower) :: Covered(spans, i)
  }

  lemma {:induction false} SpansAscend(spans: seq<Span>, n: nat, i: nat, k: nat)
    requires InText(spans, n) && i < k < |spans|
    ensures spans[i].1 <= spans[k].0
  {
    if k == |spans| - 1 {
      if i < k - 1 {
        SpansAscend(spans[..k], n, i, k - 1);
        SpanNotEmpty(spans[..k], n, k - 1);
      }
    } else {
      SpansAscend(spans[..|spans|-1], n, i, k);
    }
  }

  lemma {:induction false} SpanNotEmpty(spans: seq<Span>, n: nat, k: nat)
    requires InText(spans, n) && k < |spans|
    ensures spans[k].0 < spans[k].1
  {
    if k < |spans| - 1 { SpanNotEmpty(spans[..|spans|-1], n, k); }
  }

  lemma StartsNoLater(text: string, terms: set<string>, a: seq<Span>, b: seq<Span>, lower: char -> char, k: nat)
    requires IsHighlighting(text, terms, a, lower) && IsHighlighting(text, terms, b, lower)
    requires k < |a| && k <= |b| && a[..k] == b[..k]
    ensures k < |b| && b[k].0 <= a[k].0
  {
    assert LongestAt(text, terms, a[k], lower);
    var i := a[k].0;
    var j :| 0 <= j < |b| && b[j].0 <= i < b[j].1;
    forall m | 0 <= m < k ensures b[m].1 <= i {
      assert a[m] == a[..k][m] == b[..k][m] == b[m];
      SpansAscend(a, |text|, m, k);
    }
    if j > k {
      SpansAscend(b, |text|, k, j);
      SpanNotEmpty(b, |text|, k);
    }
  }

  lemma SameSpan(text: string, terms: set<string>, a: seq<Span>, b: seq<Span>, lower: char -> char, k: nat)
    requires IsHighlighting(text, terms, a, lower) && IsHighlighting(text, terms, b, lower)
    requires k < |a| && k < |b| && a[k].0 == b[k].0
    ensures a[k] == b[k]
  {
    hide InText, LongestAt, OccursAt, Covered;
    assert LongestAt(text, terms, a[k], lower);
    assert LongestAt(text, terms, b[k], lower);
    LongestIsUnique(text, terms, a[k], b[k], lower);
  }

  lemma LongestIsUnique(text: string, terms: set<string>, s: Span, t: Span, lower: char -> char)
    requires LongestAt(text, terms, s, lower) && LongestAt(text, terms, t, lower) && s.0 == t.0
    ensures s == t
  {
    hide OccursAt;
    var a :| a in terms && OccursAt(text, a, s.0, lower) && s.1 == s.0 + |a|;
    var b :| b in terms && OccursAt(text, b, t.0, lower) && t.1 == t.0 + |b|;
  }

  /** There is one highlighting, so the page depends only on the text and the set of terms. */
  lemma HighlightingIsUnique(text: string, terms: set<string>, a: seq<Span>, b: seq<Span>, lower: char -> char)
    requires IsHighlighting(text, terms, a, lower) && IsHighlighting(text, terms, b, lower)
    ensures a == b
  {
    PrefixesAgree(text, terms, a, b, lower, |a|);
    PrefixesAgree(text, terms, b, a, lower, |b|);
    assert a == a[..|a|] && b == b[..|b|];
  }

  lemma {:induction false} PrefixesAgree(text: string, terms: set<string>, a: seq<Span>, b: seq<Span>,
                                         lower: char -> char, k: nat)
    requires IsHighlighting(text, terms, a, lower) && IsHighlighting(text, terms, b, lower) && k <= |a|
    ensures k <= |b| && a[..k] == b[..k]
  {
    hide IsHighlighting;
    if k > 0 {
      PrefixesAgree(text, terms, a, b, lower, k - 1);
      StartsNoLater(text, terms, a, b, lower, k - 1);
      StartsNoLater(text, terms, b, a, lower, k - 1);
      SameSpan(text, terms, a, b, lower, k - 1);
      assert a[..k] == a[..k - 1] + [a[k - 1]] && b[..k] == b[..k - 1] + [b[k - 1]];
    }
  }

  /** Every term has one among the others that differs from it only in case. */
  ghost predicate SpelledAmong(terms: set<string>, others: set<string>, lower: char -> char) {
    forall t | t in terms :: exists u | u in others :: SameSpelling(t, u, lower)
  }

  predicate SameSpelling(t: string, u: string, lower: char -> char) {
    |t| == |u| && forall k | 0 <= k < |t| :: lower(t[k]) == lower(u[k])
  }

  lemma RespelledOccurs(text: string, t: string, others: set<string>, i: nat, lower: char -> char)
    returns (u: string)
    requires OccursAt(text, t, i, lower) && exists u | u in others :: SameSpelling(t, u, lower)
    ensures u in others && OccursAt(text, u, i, lower) && |u| == |t|
  {
    u :| u in others && SameSpelling(t, u, lower);
  }

  lemma RespelledLongest(text: string, terms: set<string>, others: set<string>, s: Span, lower: char -> char)
    requires SpelledAmong(terms, others, lower) && SpelledAmong(others, terms, lower)
    requires LongestAt(text, terms, s, lower)
    ensures LongestAt(text, others, s, lower)
  {
    hide OccursAt, SameSpelling;
    var t :| t in terms && OccursAt(text, t, s.0, lower) && s.1 == s.0 + |t|;
    var u := RespelledOccurs(text, t, others, s.0, lower);
    forall v | v in others && OccursAt(text, v, s.0, lower) ensures s.0 + |v| <= s.1 {
      NoLonger(text, terms, others, s, v, lower);
    }
  }

  lemma NoLonger(text: string, terms: set<string>, others: set<string>, s: Span, v: string, lower: char -> char)
    requires SpelledAmong(others, terms, lower) && LongestAt(text, terms, s, lower)
    requires v in others && OccursAt(text, v, s.0, lower)
    ensures s.0 + |v| <= s.1
  {
    hide OccursAt, SameSpelling;
    var w := RespelledOccurs(text, v, terms, s.0, lower);
  }

  lemma CaseDoesNotMatter(text: string, terms: set<string>, others: set<string>, spans: seq<Span>,
                          lower: char -> char)
    requires SpelledAmong(terms, others, lower) && SpelledAmong(others, terms, lower)
    requires IsHighlighting(text, terms, spans, lower)
    ensures IsHighlighting(text, others, spans, lower)
  {
    hide InText, Covered, OccursAt, LongestAt, SameSpelling;
    forall u, i: nat | u in others && OccursAt(text, u, i, lower) ensures Covered(spans, i) {
      var t := RespelledOccurs(text, u, terms, i, lower);
    }
    forall k | 0 <= k < |spans| ensures LongestAt(text, others, spans[k], lower) {
      RespelledLongest(text, terms, others, spans[k], lower);
    }
  }

  // ----- the scan -----

  function Lowered(s: string, lower: char -> char): (r: string)
    ensures |r| == |s| && forall i | 0 <= i < |s| :: r[i] == lower(s[i])
  {
    seq(|s|, i requires 0 <= i < |s| => lower(s[i]))
  }

  predicate MatchesAt(s: string, sub: string, i: nat) {
    i + |sub| <= |s| && s[i..i + |sub|] == sub
  }

  /** `str.find`: the first place at or after `pos`, or -1. */
  method Find(s: string, sub: string, pos: nat) returns (i: int)
    ensures i == -1 || (pos <= i && MatchesAt(s, sub, i))
    ensures forall j: nat | pos <= j && (i == -1 || j < i) :: !MatchesAt(s, sub, j)
  {
    i := pos;
    while i + |sub| <= |s|
      invariant pos <= i && forall j: nat | pos <= j < i :: !MatchesAt(s, sub, j)
    {
      if s[i..i + |sub|] == sub { return; }
      i := i + 1;
    }
    i := -1;
  }

  lemma OccursAsSlice(text: string, term: string, i: nat, lower: char -> char)
    requires term != ""
    ensures OccursAt(text, term, i, lower) <==> MatchesAt(Lowered(text, lower), Lowered(term, lower), i)
  {
    if i + |term| > |text| { return; }
    var a, b := Lowered(text, lower)[i..i + |term|], Lowered(term, lower);
    assert forall k | 0 <= k < |term| :: a[k] == lower(text[i + k]) && b[k] == lower(term[k]);
    if a == b { assert forall k | 0 <= k < |term| :: a[k] == b[k]; }
  }

  /** The first occurrence of one term. */
  method FindTerm(text: string, term: string, pos: nat, lower: char -> char) returns (i: int)
    requires term != ""
    ensures i == -1 || pos <= i
    ensures i >= 0 ==> OccursAt(text, term, i, lower)
    ensures forall j: nat | pos <= j && (i == -1 || j < i) :: !OccursAt(text, term, j, lower)
  {
    var low, lt := Lowered(text, lower), Lowered(term, lower);
    i := Find(low, lt, pos);
    forall j: nat ensures OccursAt(text, term, j, lower) <==> MatchesAt(low, lt, j) {
      OccursAsSlice(text, term, j, lower);
    }
  }

  /** The leftmost, then longest, occurrence among the first terms. */
  ghost predicate BestOf(text: string, terms: seq<string>, pos: nat, start: int, end: int, lower: char -> char) {
    if start == -1 then forall term, j: nat | term in terms && pos <= j :: !OccursAt(text, term, j, lower)
    else
      && pos <= start < end <= |text|
      && (exists term | term in terms :: OccursAt(text, term, start, lower) && end == start + |term|)
      && (forall term, j: nat | term in terms && pos <= j < start :: !OccursAt(text, term, j, lower))
      && forall term | term in terms && OccursAt(text, term, start, lower) :: start + |term| <= end
  }

  method FindBest(text: string, terms: seq<string>, pos: nat, lower: char -> char) returns (start: int, end: int)
    requires pos <= |text|
    ensures start >= -1 && BestOf(text, terms, pos, start, end, lower)
  {
    start, end := -1, -1;
    for n := 0 to |terms|
      invariant start >= -1 && BestOf(text, terms[..n], pos, start, end, lower)
    {
      var term := terms[n];
      assert terms[..n + 1] == terms[..n] + [term];
      if term == "" { continue; }
      var i := FindTerm(text, term, pos, lower);
      if i == -1 { continue; }
      var e := i + |term|;
      BestStep(text, terms[..n], term, pos, start, end, i, lower);
      if start == -1 || i < start || (i == start && e > end) {
        start, end := i, e;
      }
    }
    assert terms[..|terms|] == terms;
  }

  lemma BestStep(text: string, terms: seq<string>, term: string, pos: nat, start: int, end: int, i: nat,
                 lower: char -> char)
    requires pos <= |text| && start >= -1 && BestOf(text, terms, pos, start, end, lower)
    requires pos <= i && OccursAt(text, term, i, lower)
    requires forall j: nat | pos <= j < i :: !OccursAt(text, term, j, lower)
    ensures var e := i + |term|;
            if start == -1 || i < start || (i == start && e > end)
            then BestOf(text, terms + [term], pos, i, e, lower)
            else BestOf(text, terms + [term], pos, start, end, lower)
  {
  }

  function Join(parts: seq<string>): string {
    if parts == [] then "" else Join(parts[..|parts|-1]) + parts[|parts|-1]
  }

  /** Spans found so far: as a highlighting of everything before `pos`. */
  ghost predicate Scanned(text: string, terms: set<string>, spans: seq<Span>, pos: nat, lower: char -> char) {
    && InText(spans, |text|) && pos == End(spans)
    && (forall k | 0 <= k < |spans| :: LongestAt(text, terms, spans[k], lower))
    && forall term, i: nat | i < pos && term in terms && OccursAt(text, term, i, lower) :: Covered(spans, i)
  }

  lemma ScanStep(text: string, terms: seq<string>, spans: seq<Span>, pos: nat, start: nat, end: nat,
                 lower: char -> char)
    requires Scanned(text, Elements(terms), spans, pos, lower)
    requires BestOf(text, terms, pos, start, end, lower)
    ensures Scanned(text, Elements(terms), spans + [(start, end)], end, lower)
  {
    var spans' := spans + [(start, end)];
    assert spans'[..|spans'|-1] == spans;
    forall i: nat ensures Covered(spans', i) <==> Covered(spans, i) || start <= i < end {
      CoveredSplit(spans', |text|, i);
    }
  }

  lemma ScanEnds(text: string, terms: seq<string>, spans: seq<Span>, pos: nat, lower: char -> char)
    requires pos <= |text| && Scanned(text, Elements(terms), spans, pos, lower)
    requires pos == |text| || BestOf(text, terms, pos, -1, -1, lower)
    ensures IsHighlighting(text, Elements(terms), spans, lower)
  {
  }

  lemma JoinStep(parts: seq<string>, part: string)
    ensures Join(parts + [part]) == Join(parts) + part
  {
    assert (parts + [part])[..|parts|] == parts;
  }

  /** One matched term: the text before it, then the term inside a mark. */
  method Append(out: seq<string>, text: string, pos: nat, start: nat, end: nat, ghost spans: seq<Span>)
    returns (more: seq<string>)
    requires pos <= start < end <= |text|
    requires InText(spans, |text|) && pos == End(spans) && InText(spans + [(start, end)], |text|)
    requires Join(out) == Head(text, spans)
    ensures Join(more) == Head(text, spans + [(start, end)])
  {
    more := out;
    if start > pos {
      JoinStep(more, Escape(text[pos..start]));
      more := more + [Escape(text[pos..start])];
    }
    assert Join(more) == Head(text, spans) + Escape(text[pos..start]);
    var chunk := text[start..end];
    JoinStep(more, OPEN + Escape(chunk) + CLOSE);
    more := more + [OPEN + Escape(chunk) + CLOSE];
    HeadUnfold(text, spans, (start, end));
  }

  /** The page of a highlighting: it reads back to the text, marked exactly where the spans are. */
  ghost predicate IsPage(html: string, text: string, terms: set<string>, spans: seq<Span>, lower: char -> char) {
    IsHighlighting(text, terms, spans, lower) && html == Render(text, spans)
    && Read(html, false) == Highlit(text, spans, |text|)
  }

  method HighlightTerms(text: string, terms: seq<string>, lower: char -> char)
    returns (html: string)
    ensures exists spans :: IsPage(html, text, Elements(terms), spans, lower)
  {
    hide Read, Highlit, Escape, LongestAt, OccursAt, Covered, IsHighlighting, Render;
    if text == "" || terms == [] {
      NothingToMark(text, terms, lower);
      html := if text == "" then "" else Escape(text);
      PageReadsBack(html, text, Elements(terms), [], lower);
      return;
    }
    ghost var spans: seq<Span> := [];
    var out: seq<string> := [];
    var pos := 0;
    ScanStarts(text, terms, lower);
    while pos < |text|
      invariant pos <= |text| && Scanned(text, Elements(terms), spans, pos, lower)
      invariant Join(out) == Head(text, spans)
      decreases |text| - pos
    {
      var start, end := FindBest(text, terms, pos, lower);
      if start == -1 {
        ScanEnds(text, terms, spans, pos, lower);
        JoinStep(out, Escape(text[pos..]));
        out := out + [Escape(text[pos..])];
        html := Join(out);
        RenderIs(text, spans, pos);
        PageReadsBack(html, text, Elements(terms), spans, lower);
        return;
      }
      ScanStep(text, terms, spans, pos, start, end, lower);
      out := Append(out, text, pos, start, end, spans);
      spans := spans + [(start, end)];
      pos := end;
    }
    ScanEnds(text, terms, spans, pos, lower);
    assert text[pos..] == "";
    NothingEscaped();
    html := Join(out);
    RenderIs(text, spans, pos);
    PageReadsBack(html, text, Elements(terms), spans, lower);
  }

  lemma RenderIs(text: string, spans: seq<Span>, pos: nat)
    requires InText(spans, |text|) && pos == End(spans) && pos <= |text|
    ensures Render(text, spans) == Head(text, spans) + Escape(text[pos..])
  {
  }

  lemma PageReadsBack(html: string, text: string, terms: set<string>, spans: seq<Span>, lower: char -> char)
    requires IsHighlighting(text, terms, spans, lower) && html == Render(text, spans)
    ensures IsPage(html, text, terms, spans, lower)
  {
    RenderReadsBack(text, spans);
  }

  lemma NothingEscaped()
    ensures Escape("") == ""
  {
  }

  lemma ScanStarts(text: string, terms: seq<string>, lower: char -> char)
    ensures Scanned(text, Elements(terms), [], 0, lower)
  {
  }

  lemma NothingToMark(text: string, terms: seq<string>, lower: char -> char)
    requires text == "" || terms == []
    ensures IsHighlighting(text, Elements(terms), [], lower)
    ensures Render(text, []) == if text == "" then "" else Escape(text)
  {
    assert text[End([])..] == text;
  }
}
