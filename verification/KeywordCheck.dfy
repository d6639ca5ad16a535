/**
  Keyword presence: the padded-substring test over normalised text, and why it is a test for a
  window of tokens. `lower` and `strip` are the language's string functions, `isWord` its `\w`.
 */
module KeywordCheck {
  import opened Sequences

  // ----- normalisation -----

  predicate Kept(c: char) {
    'a' <= c <= 'z' || '0' <= c <= '9' || c == '+' || c == '#'
  }

  /** `re.sub(r"\brestful\b", "rest", s)`, given whether a word character precedes. */
  function ReplaceRestful(s: string, afterWord: bool, isWord: char -> bool): string {
    if s == "" then ""
    else if |s| >= 7 && s[..7] == "restful" && !afterWord && (|s| == 7 || !isWord(s[7])) then
      "rest" + ReplaceRestful(s[7..], true, isWord)
    else [s[0]] + ReplaceRestful(s[1..], isWord(s[0]), isWord)
  }

  /** A whole word "restful" stands at this place. */
  ghost predicate RestfulAt(s: string, i: nat, afterWord: bool, isWord: char -> bool) {
    && OccursAt(s, "restful", i)
    && !(if i == 0 then afterWord else isWord(s[i - 1]))
    && (i + 7 == |s| || !isWord(s[i + 7]))
  }

  lemma RestfulLater(s: string, i: nat, afterWord: bool, isWord: char -> bool)
    requires s != ""
    ensures RestfulAt(s[1..], i, isWord(s[0]), isWord) <==> RestfulAt(s, i + 1, afterWord, isWord)
  {
    if i + 8 <= |s| { assert s[1..][i..i + 7] == s[i + 1..i + 1 + 7]; }
  }

  lemma ReplaceHead(s: string, afterWord: bool, isWord: char -> bool)
    requires s != ""
    ensures ReplaceRestful(s, afterWord, isWord)
            == if RestfulAt(s, 0, afterWord, isWord) then "rest" + ReplaceRestful(s[7..], true, isWord)
               else [s[0]] + ReplaceRestful(s[1..], isWord(s[0]), isWord)
  {
    assert |s| >= 7 ==> s[0..0 + 7] == s[..7];
  }

  /** The first whole word is replaced, and the rest likewise; the text before it stays. */
  lemma {:induction false} FirstRestful(s: string, i: nat, afterWord: bool, isWord: char -> bool)
    requires RestfulAt(s, i, afterWord, isWord)
    requires forall k: nat | k < i :: !RestfulAt(s, k, afterWord, isWord)
    ensures ReplaceRestful(s, afterWord, isWord) == s[..i] + ("rest" + ReplaceRestful(s[i + 7..], true, isWord))
    decreases i
  {
    assert i + 7 <= |s|;
    hide RestfulAt, ReplaceRestful;
    ReplaceHead(s, afterWord, isWord);
    if i > 0 {
      RestfulLater(s, i - 1, afterWord, isWord);
      forall k: nat | k < i - 1 ensures !RestfulAt(s[1..], k, isWord(s[0]), isWord) {
        RestfulLater(s, k, afterWord, isWord);
      }
      FirstRestful(s[1..], i - 1, isWord(s[0]), isWord);
      Reheaded(s, i, "rest" + ReplaceRestful(s[i + 7..], true, isWord));
      assert s[1..][i - 1 + 7..] == s[i + 7..];
    }
  }

  lemma Reheaded(s: string, i: nat, rest: string)
    requires 0 < i <= |s|
    ensures [s[0]] + (s[1..][..i - 1] + rest) == s[..i] + rest
  {
    assert [s[0]] + s[1..][..i - 1] == s[..i];
  }

  /** A text without it stays as it is. */
  lemma {:induction false} NoRestful(s: string, afterWord: bool, isWord: char -> bool)
    requires forall k: nat :: !RestfulAt(s, k, afterWord, isWord)
    ensures ReplaceRestful(s, afterWord, isWord) == s
  {
    if s != "" {
      ReplaceHead(s, afterWord, isWord);
      forall k: nat ensures !RestfulAt(s[1..], k, isWord(s[0]), isWord) { RestfulLater(s, k, afterWord, isWord); }
      NoRestful(s[1..], isWord(s[0]), isWord);
    }
  }

  function SkipGap(s: string): (r: string)
    ensures |r| <= |s|
  {
    if s == "" || Kept(s[0]) then s else SkipGap(s[1..])
  }

  /** Every run of other characters becomes one space. */
  function Spaced(s: string): string
    decreases |s|
  {
    if s == "" then "" else if Kept(s[0]) then [s[0]] + Spaced(s[1..]) else " " + Spaced(SkipGap(s[1..]))
  }

  function Flush(run: string): seq<string> {
    if run == "" then [] else [run]
  }

  /** `str.split()` on text whose only white space is spaces. */
  function Split(s: string, run: string): seq<string> {
    if s == "" then Flush(run)
    else if s[0] == ' ' then Flush(run) + Split(s[1..], "")
    else Split(s[1..], run + [s[0]])
  }

  /** The maximal runs of kept characters. */
  function Runs(s: string, run: string): seq<string> {
    if s == "" then Flush(run)
    else if Kept(s[0]) then Runs(s[1..], run + [s[0]])
    else Flush(run) + Runs(s[1..], "")
  }

  lemma {:induction false} RunsSkipGap(s: string)
    ensures Runs(SkipGap(s), "") == Runs(s, "")
  {
    if s != "" && !Kept(s[0]) {
      RunsSkipGap(s[1..]);
      assert Flush("") + Runs(s[1..], "") == Runs(s[1..], "");
    }
  }

  /** Substituting and splitting gives exactly the maximal runs of kept characters. */
  lemma {:induction false} SplitSpacedIsRuns(s: string, run: string)
    ensures Split(Spaced(s), run) == Runs(s, run)
    decreases |s|
  {
    if s == "" {
    } else if Kept(s[0]) {
      assert Spaced(s)[1..] == Spaced(s[1..]);
      SplitSpacedIsRuns(s[1..], run + [s[0]]);
    } else {
      assert Spaced(s)[1..] == Spaced(SkipGap(s[1..]));
      SplitSpacedIsRuns(SkipGap(s[1..]), "");
      RunsSkipGap(s[1..]);
    }
  }

  const KEPT: set<char> := {
    'a', 'b', 'c', 'd', 'e', 'f', 'g', 'h', 'i', 'j', 'k', 'l', 'm', 'n', 'o', 'p', 'q', 'r', 's', 't', 'u', 'v', 'w',
    'x', 'y', 'z', '0', '1', '2', '3', '4', '5', '6', '7', '8', '9', '+', '#'
  }

  lemma KeptChars(c: char)
    ensures Kept(c) <==> c in KEPT
  {
    if 'a' <= c <= 'z' || '0' <= c <= '9' {
      var n := c as int;
      assert 97 <= n <= 122 || 48 <= n <= 57;
      assert c == n as char;
    }
  }

  /** A text of kept characters is one run. */
  lemma {:induction false} RunsOfWord(s: string, run: string)
    requires forall i | 0 <= i < |s| :: s[i] in KEPT
    ensures Runs(s, run) == Flush(run + s)
  {
    if s == "" {
      assert run + s == run;
    } else {
      KeptChars(s[0]);
      RunsOfWord(s[1..], run + [s[0]]);
      assert run + [s[0]] + s[1..] == run + s;
    }
  }

  /** Any other character ends one run and starts the next. */
  lemma {:induction false} RunsSplit(a: string, c: char, b: string, run: string)
    requires c !in KEPT
    ensures Runs(a + [c] + b, run) == Runs(a, run) + Runs(b, "")
  {
    hide KEPT;
    var s := a + [c] + b;
    if a == "" {
      KeptChars(c);
      assert s[1..] == b;
    } else {
      assert s[0] == a[0] && s[1..] == a[1..] + [c] + b;
      RunsSplit(a[1..], c, b, if Kept(a[0]) then run + [a[0]] else "");
    }
  }

  predicate EndsWith(t: string, suffix: string) {
    |suffix| <= |t| && t[|t| - |suffix|..] == suffix
  }

  function Stem(t: string): string {
    if EndsWith(t, "ies") && |t| > 4 then t[..|t| - 3] + "y"
    else if EndsWith(t, "ing") && |t| > 5 then t[..|t| - 3]
    else if EndsWith(t, "es") && |t| > 4 then t[..|t| - 2]
    else if EndsWith(t, "s") && |t| > 3 then t[..|t| - 1]
    else t
  }

  /** What stemming makes of a word with one of the four endings, and of any other. */
  lemma StemsOfEndings(b: string)
    ensures |b| >= 2 ==> Stem(b + "ies") == b + "y"
    ensures |b| >= 3 ==> Stem(b + "ing") == b
    ensures |b| >= 3 && b[|b|-1] != 'i' ==> Stem(b + "es") == b
    ensures |b| == 3 || (|b| > 3 && b[|b|-1] != 'e') ==> Stem(b + "s") == b
    ensures |b| <= 2 ==> Stem(b + "ing") == b + "ing"
    ensures |b| <= 3 ==> Stem(b) == b
    ensures b != "" && b[|b|-1] != 's' && b[|b|-1] != 'g' ==> Stem(b) == b
  {
    hide Stem;
    if |b| >= 2 { StemOfIes(b); }
    if |b| >= 3 { StemOfIng(b); }
    if |b| >= 3 && b[|b|-1] != 'i' { StemOfEs(b); }
    if |b| == 3 || (|b| > 3 && b[|b|-1] != 'e') { StemOfS(b); }
    if |b| <= 2 { ShortStaysAsItIs(b); }
    StemOfOther(b);
  }

  lemma Ending(b: string, suffix: string)
    ensures EndsWith(b + suffix, suffix) && (b + suffix)[..|b|] == b
  {
    assert (b + suffix)[|b|..] == suffix;
  }

  lemma OtherEnding(t: string, suffix: string, i: nat)
    requires i < |suffix| <= |t| && t[|t| - |suffix| + i] != suffix[i]
    ensures !EndsWith(t, suffix)
  {
    assert t[|t| - |suffix|..][i] != suffix[i];
  }

  lemma StemOfIes(b: string)
    requires |b| >= 2
    ensures Stem(b + "ies") == b + "y"
  {
    Ending(b, "ies");
  }

  lemma StemOfIng(b: string)
    requires |b| >= 3
    ensures Stem(b + "ing") == b
  {
    Ending(b, "ing");
    OtherEnding(b + "ing", "ies", 2);
    hide EndsWith;
  }

  lemma StemOfEs(b: string)
    requires |b| >= 3 && b[|b|-1] != 'i'
    ensures Stem(b + "es") == b
  {
    Ending(b, "es");
    OtherEnding(b + "es", "ies", 0);
    OtherEnding(b + "es", "ing", 2);
    hide EndsWith;
  }

  lemma StemOfS(b: string)
    requires |b| == 3 || (|b| > 3 && b[|b|-1] != 'e')
    ensures Stem(b + "s") == b
  {
    Ending(b, "s");
    OtherEnding(b + "s", "ing", 2);
    if |b| > 3 {
      OtherEnding(b + "s", "ies", 1);
      OtherEnding(b + "s", "es", 0);
    }
    hide EndsWith;
  }

  lemma ShortStaysAsItIs(b: string)
    requires |b| <= 2
    ensures Stem(b + "ing") == b + "ing"
  {
    OtherEnding(b + "ing", "ies", 2);
    OtherEnding(b + "ing", "es", 1);
    OtherEnding(b + "ing", "s", 0);
    hide EndsWith;
  }

  lemma StemOfOther(t: string)
    ensures |t| <= 3 ==> Stem(t) == t
    ensures t != "" && t[|t|-1] != 's' && t[|t|-1] != 'g' ==> Stem(t) == t
  {
    if |t| > 3 && t[|t|-1] != 's' && t[|t|-1] != 'g' {
      OtherEnding(t, "ies", 2);
      OtherEnding(t, "ing", 2);
      OtherEnding(t, "es", 1);
      OtherEnding(t, "s", 0);
      hide EndsWith;
    }
  }

  function StemAll(ts: seq<string>): seq<string> {
    seq(|ts|, i requires 0 <= i < |ts| => Stem(ts[i]))
  }

  /** The normalised tokens of a text. */
  function Tokens(text: string, lower: string -> string, isWord: char -> bool): seq<string> {
    StemAll(Runs(ReplaceRestful(lower(text), false, isWord), ""))
  }

  predicate IsToken(t: string) {
    t != "" && forall i | 0 <= i < |t| :: Kept(t[i])
  }

  predicate AllTokens(ts: seq<string>) {
    forall i | 0 <= i < |ts| :: IsToken(ts[i])
  }

  lemma {:induction false} RunsAreTokens(s: string, run: string)
    requires run == "" || IsToken(run)
    ensures AllTokens(Runs(s, run))
  {
    if s != "" {
      if Kept(s[0]) { RunsAreTokens(s[1..], run + [s[0]]); } else { RunsAreTokens(s[1..], ""); }
    }
  }

  lemma StemIsToken(t: string)
    requires IsToken(t)
    ensures IsToken(Stem(t))
  {
  }

  lemma TokensAreTokens(text: string, lower: string -> string, isWord: char -> bool)
    ensures AllTokens(Tokens(text, lower, isWord))
  {
    var runs := Runs(ReplaceRestful(lower(text), false, isWord), "");
    RunsAreTokens(ReplaceRestful(lower(text), false, isWord), "");
    forall i | 0 <= i < |runs| ensures IsToken(Stem(runs[i])) { StemIsToken(runs[i]); }
  }

  // ----- joined and padded -----

  function JoinWords(ts: seq<string>): string {
    if ts == [] then "" else if |ts| == 1 then ts[0] else ts[0] + " " + JoinWords(ts[1..])
  }

  /** Each token followed by a space. */
  function Body(ts: seq<string>): string {
    if ts == [] then "" else ts[0] + (" " + Body(ts[1..]))
  }

  lemma {:induction false} JoinIsBody(ts: seq<string>)
    requires ts != []
    ensures JoinWords(ts) + " " == Body(ts)
  {
    if |ts| == 1 {
      assert Body(ts[1..]) == "";
    } else {
      JoinIsBody(ts[1..]);
    }
  }

  predicate WindowAt(ts: seq<string>, ks: seq<string>, j: nat) {
    j + |ks| <= |ts| && ts[j..j + |ks|] == ks
  }

  ghost predicate HasWindow(ts: seq<string>, ks: seq<string>) {
    exists j: nat :: WindowAt(ts, ks, j)
  }

  lemma FirstWordsAgree(a: string, x: string, b: string, y: string)
    requires IsToken(a) && IsToken(b)
    requires a + (" " + x) <= b + (" " + y)
    ensures a == b && x <= y
  {
    var s, t := a + (" " + x), b + (" " + y);
    assert s[|a|] == ' ' && t[|b|] == ' ';
    forall i | 0 <= i < |a| ensures s[i] != ' ' { assert s[i] == a[i]; }
    forall i | 0 <= i < |b| ensures t[i] != ' ' { assert t[i] == b[i]; }
    assert |a| == |b|;
    assert a == s[..|a|] && b == t[..|b|];
    assert x == s[|a| + 1..] && y == t[|b| + 1..];
  }

  /** Token lists can be read back from their bodies, prefix by prefix. */
  lemma {:induction false} BodyPrefix(ks: seq<string>, ts: seq<string>)
    requires AllTokens(ks) && AllTokens(ts) && Body(ks) <= Body(ts)
    ensures ks <= ts
  {
    if ks != [] {
      FirstWordsAgree(ks[0], Body(ks[1..]), ts[0], Body(ts[1..]));
      BodyPrefix(ks[1..], ts[1..]);
      assert ks == [ks[0]] + ks[1..] && ts == [ts[0]] + ts[1..];
    }
  }

  lemma {:induction false} BodyOfPrefix(ts: seq<string>, n: nat)
    requires n <= |ts|
    ensures Body(ts[..n]) <= Body(ts)
    ensures Body(ts) == Body(ts[..n]) + Body(ts[n..])
  {
    if n == 0 {
      assert ts[n..] == ts;
    } else {
      BodyOfPrefix(ts[1..], n - 1);
      assert ts[1..][..n - 1] == ts[..n][1..] && ts[1..][n - 1..] == ts[n..];
    }
  }

  /** A space of the padded text stands just before some token or the end. */
  lemma {:induction false} SpaceIsBoundary(ts: seq<string>, i: nat) returns (j: nat)
    requires AllTokens(ts) && i <= |Body(ts)| && (" " + Body(ts))[i] == ' '
    ensures j <= |ts| && (" " + Body(ts))[i + 1..] == Body(ts[j..])
  {
    if i == 0 {
      j := 0;
      assert ts[0..] == ts;
    } else {
      var rest := " " + Body(ts[1..]);
      assert (" " + Body(ts))[i] == Body(ts)[i - 1];
      assert ts != [];
      var k := i - 1 - |ts[0]|;
      forall m | 0 <= m < |ts[0]| ensures Body(ts)[m] != ' ' { assert Body(ts)[m] == ts[0][m]; }
      assert k >= 0;
      assert rest[k] == Body(ts)[i - 1];
      var j' := SpaceIsBoundary(ts[1..], k);
      j := j' + 1;
      assert ts[1..][j'..] == ts[j..];
      assert (" " + Body(ts))[i + 1..] == rest[k + 1..];
    }
  }

  lemma SubstringIsWindow(ts: seq<string>, ks: seq<string>, i: nat)
    requires AllTokens(ts) && AllTokens(ks) && OccursAt(" " + Body(ts), " " + Body(ks), i)
    ensures HasWindow(ts, ks)
  {
    var s, p := " " + Body(ts), " " + Body(ks);
    assert s[i] == s[i..i + |p|][0] == p[0];
    var j := SpaceIsBoundary(ts, i);
    assert Body(ks) == p[1..] == s[i..i + |p|][1..] == s[i + 1..][..|p| - 1];
    BodyPrefix(ks, ts[j..]);
    assert ts[j..j + |ks|] == ts[j..][..|ks|] == ks;
    assert WindowAt(ts, ks, j);
  }

  lemma {:induction false} EndsInSpace(ts: seq<string>)
    ensures " " + Body(ts) == (" " + Body(ts))[..|Body(ts)|] + " "
  {
    if ts != [] {
      EndsInSpace(ts[1..]);
      assert (" " + Body(ts[1..]))[|Body(ts[1..])|] == ' ';
      assert Body(ts)[|Body(ts)| - 1] == (" " + Body(ts[1..]))[|Body(ts[1..])|];
    }
  }

  lemma BodyInThree(before: seq<string>, ks: seq<string>, after: seq<string>)
    ensures Body(before + ks + after) == Body(before) + (Body(ks) + Body(after))
  {
    BodyOfPrefix(before + ks + after, |before|);
    BodyOfPrefix(ks + after, |ks|);
    assert (before + ks + after)[..|before|] == before && (before + ks + after)[|before|..] == ks + after;
    assert (ks + after)[..|ks|] == ks && (ks + after)[|ks|..] == after;
  }

  lemma Recut(a: string, b: string, c: string)
    ensures OccursAt((a + " ") + (b + c), " " + b, |a|)
  {
    var s := (a + " ") + (b + c);
    assert s == a + (" " + b) + c;
    assert s[|a|..|a| + |" " + b|] == " " + b;
  }

  lemma PaddedInThree(before: seq<string>, ks: seq<string>, after: seq<string>)
    ensures Contains(" " + Body(before + ks + after), " " + Body(ks))
  {
    hide Body, OccursAt;
    var a := (" " + Body(before))[..|Body(before)|];
    EndsInSpace(before);
    BodyInThree(before, ks, after);
    assert " " + Body(before + ks + after) == (a + " ") + (Body(ks) + Body(after));
    Recut(a, Body(ks), Body(after));
  }

  lemma WindowIsSubstring(ts: seq<string>, ks: seq<string>, j: nat)
    requires WindowAt(ts, ks, j)
    ensures Contains(" " + Body(ts), " " + Body(ks))
  {
    hide Body, Contains;
    assert ts == ts[..j] + ks + ts[j + |ks|..];
    PaddedInThree(ts[..j], ks, ts[j + |ks|..]);
  }

  /** The padded keyword is a substring of the padded text exactly when its tokens are a window. */
  lemma PaddedSubstringIsWindow(ts: seq<string>, ks: seq<string>)
    requires AllTokens(ts) && AllTokens(ks)
    ensures Contains(" " + Body(ts), " " + Body(ks)) <==> HasWindow(ts, ks)
  {
    if Contains(" " + Body(ts), " " + Body(ks)) {
      var i: nat :| OccursAt(" " + Body(ts), " " + Body(ks), i);
      SubstringIsWindow(ts, ks, i);
    }
    if HasWindow(ts, ks) {
      var j: nat :| WindowAt(ts, ks, j);
      WindowIsSubstring(ts, ks, j);
    }
  }

  // ----- the test -----

  /** The first suffix that fits is cut. */
  method Stemmed(word: string) returns (token: string)
    ensures token == Stem(word)
  {
    token := word;
    if EndsWith(token, "ies") && |token| > 4 {
      token := token[..|token| - 3] + "y";
    } else if EndsWith(token, "ing") && |token| > 5 {
      token := token[..|token| - 3];
    } else if EndsWith(token, "es") && |token| > 4 {
      token := token[..|token| - 2];
    } else if EndsWith(token, "s") && |token| > 3 {
      token := token[..|token| - 1];
    }
  }

  lemma StemOneMore(words: seq<string>, i: nat)
    requires i < |words|
    ensures StemAll(words[..i + 1]) == StemAll(words[..i]) + [Stem(words[i])]
  {
    hide Stem;
  }

  /** The normalised text is the tokens joined by spaces. */
  method NormalizeForMatch(value: string, lower: string -> string, isWord: char -> bool) returns (text: string)
    ensures text == JoinWords(Tokens(value, lower, isWord))
  {
    hide Stem, Runs, Split, Spaced, JoinWords, ReplaceRestful;
    text := ReplaceRestful(lower(value), false, isWord);
    SplitSpacedIsRuns(text, "");
    var words := Split(Spaced(text), "");
    var tokens: seq<string> := [];
    for i := 0 to |words|
      invariant tokens == StemAll(words[..i])
    {
      var token := Stemmed(words[i]);
      StemOneMore(words, i);
      tokens := tokens + [token];
    }
    assert words[..|words|] == words;
    text := JoinWords(tokens);
  }

  /** The keyword's tokens, if any, are a contiguous window of the text's. */
  ghost predicate Mentions(keyword: string, text: string, strip: string -> string, lower: string -> string,
                           isWord: char -> bool)
  {
    var ks := Tokens(strip(keyword), lower, isWord);
    strip(keyword) != "" && ks != [] && HasWindow(Tokens(text, lower, isWord), ks)
  }

  method FindSubstring(s: string, sub: string) returns (found: bool)
    ensures found <==> Contains(s, sub)
  {
    var i := 0;
    while i + |sub| <= |s|
      invariant forall k: nat | k < i :: !OccursAt(s, sub, k)
    {
      if s[i..i + |sub|] == sub {
        assert OccursAt(s, sub, i);
        return true;
      }
      i := i + 1;
    }
    found := false;
  }

  lemma {:induction false} JoinEmpty(ts: seq<string>)
    requires AllTokens(ts)
    ensures JoinWords(ts) == "" <==> ts == []
  {
  }

  method KwInText(keyword: string, text: string, strip: string -> string, lower: string -> string,
                  isWord: char -> bool)
    returns (found: bool)
    ensures found <==> Mentions(keyword, text, strip, lower, isWord)
  {
    var kw := strip(keyword);
    if kw == "" { return false; }
    var normalizedKw := NormalizeForMatch(kw, lower, isWord);
    var normalizedText := NormalizeForMatch(text, lower, isWord);
    ghost var ks, ts := Tokens(kw, lower, isWord), Tokens(text, lower, isWord);
    TokensAreTokens(kw, lower, isWord);
    TokensAreTokens(text, lower, isWord);
    JoinEmpty(ks);
    JoinEmpty(ts);
    if normalizedKw == "" || normalizedText == "" { return false; }
    JoinIsBody(ks);
    JoinIsBody(ts);
    PaddedSubstringIsWindow(ts, ks);
    assert " " + normalizedKw + " " == " " + Body(ks) && " " + normalizedText + " " == " " + Body(ts);
    found := FindSubstring(" " + normalizedText + " ", " " + normalizedKw + " ");
  }

  /** A keyword of one word is in a text exactly if its stem is one of the text's tokens. */
  lemma OneWordMentions(keyword: string, text: string, strip: string -> string, lower: string -> string,
                        isWord: char -> bool)
    requires var word := lower(strip(keyword));
             && word != "" && (forall i | 0 <= i < |word| :: word[i] in KEPT)
             && forall k: nat :: !RestfulAt(word, k, false, isWord)
    ensures Mentions(keyword, text, strip, lower, isWord) <==>
              strip(keyword) != "" && Stem(lower(strip(keyword))) in Tokens(text, lower, isWord)
  {
    var word := lower(strip(keyword));
    NoRestful(word, false, isWord);
    RunsOfWord(word, "");
    assert "" + word == word;
    hide Stem, Runs, ReplaceRestful, KEPT;
    assert Tokens(strip(keyword), lower, isWord) == [Stem(word)];
    OneWindow(Tokens(text, lower, isWord), Stem(word));
  }

  lemma OneWindow(ts: seq<string>, k: string)
    ensures HasWindow(ts, [k]) <==> k in ts
  {
    if HasWindow(ts, [k]) {
      var j: nat :| WindowAt(ts, [k], j);
      assert ts[j] == ts[j..j + 1][0];
    }
    if k in ts {
      var j :| 0 <= j < |ts| && ts[j] == k;
      assert WindowAt(ts, [k], j);
    }
  }

  // ----- splitting the keywords -----

  ghost predicate MentionedIn(keyword: string, bullets: seq<string>, strip: string -> string,
                              lower: string -> string, isWord: char -> bool)
  {
    exists i | 0 <= i < |bullets| :: Mentions(keyword, bullets[i], strip, lower, isWord)
  }

  /** Ascending, and exactly the places of the bullets that mention the keyword. */
  ghost predicate AreHits(hits: seq<nat>, keyword: string, bullets: seq<string>, strip: string -> string,
                          lower: string -> string, isWord: char -> bool)
  {
    && (forall i, k | 0 <= i < k < |hits| :: hits[i] < hits[k])
    && forall i: nat :: i in hits <==> i < |bullets| && Mentions(keyword, bullets[i], strip, lower, isWord)
  }

  ghost function Those(keywords: seq<string>, mentioned: bool, bullets: seq<string>, strip: string -> string,
                       lower: string -> string, isWord: char -> bool): seq<string>
  {
    if keywords == [] then []
    else
      var n := |keywords| - 1;
      var before := Those(keywords[..n], mentioned, bullets, strip, lower, isWord);
      if MentionedIn(keywords[n], bullets, strip, lower, isWord) == mentioned then before + [keywords[n]] else before
  }

  method Hits(keyword: string, bullets: seq<string>, strip: string -> string, lower: string -> string,
              isWord: char -> bool)
    returns (hits: seq<nat>)
    ensures AreHits(hits, keyword, bullets, strip, lower, isWord)
    ensures hits != [] <==> MentionedIn(keyword, bullets, strip, lower, isWord)
  {
    hide Mentions;
    hits := [];
    for i := 0 to |bullets|
      invariant forall j, k | 0 <= j < k < |hits| :: hits[j] < hits[k]
      invariant forall j: nat :: j in hits <==> j < i && Mentions(keyword, bullets[j], strip, lower, isWord)
    {
      var found := KwInText(keyword, bullets[i], strip, lower, isWord);
      assert forall j | 0 <= j < |hits| :: hits[j] in hits;
      if found { hits := hits + [i]; }
    }
    if hits != [] { assert hits[0] in hits; }
  }

  /** Keywords split in order into present and missing, with the places of every hit. */
  method PartitionKeywords(keywords: seq<string>, bullets: seq<string>, strip: string -> string,
                           lower: string -> string, isWord: char -> bool)
    returns (present: seq<string>, missing: seq<string>, coverage: map<string, seq<nat>>)
    ensures present == Those(keywords, true, bullets, strip, lower, isWord)
    ensures missing == Those(keywords, false, bullets, strip, lower, isWord)
    ensures coverage.Keys == Elements(keywords)
    ensures forall k | k in coverage :: AreHits(coverage[k], k, bullets, strip, lower, isWord)
  {
    hide MentionedIn, AreHits;
    present, missing, coverage := [], [], map[];
    for n := 0 to |keywords|
      invariant present == Those(keywords[..n], true, bullets, strip, lower, isWord)
      invariant missing == Those(keywords[..n], false, bullets, strip, lower, isWord)
      invariant coverage.Keys == Elements(keywords[..n])
      invariant forall k | k in coverage :: AreHits(coverage[k], k, bullets, strip, lower, isWord)
    {
      assert keywords[..n + 1][..n] == keywords[..n] && keywords[..n + 1] == keywords[..n] + [keywords[n]];
      var hits := Hits(keywords[n], bullets, strip, lower, isWord);
      if hits != [] {
        present := present + [keywords[n]];
      } else {
        missing := missing + [keywords[n]];
      }
      coverage := coverage[keywords[n] := hits];
    }
    assert keywords[..|keywords|] == keywords;
  }

  /** Every keyword lands on exactly one side. */
  lemma {:induction false} PartitionIsComplete(keywords: seq<string>, bullets: seq<string>,
                                               strip: string -> string, lower: string -> string,
                                               isWord: char -> bool)
    ensures multiset(Those(keywords, true, bullets, strip, lower, isWord))
            + multiset(Those(keywords, false, bullets, strip, lower, isWord)) == multiset(keywords)
    ensures forall k :: k in Those(keywords, true, bullets, strip, lower, isWord) <==>
              k in keywords && MentionedIn(k, bullets, strip, lower, isWord)
  {
    if keywords != [] {
      var n := |keywords| - 1;
      PartitionIsComplete(keywords[..n], bullets, strip, lower, isWord);
      assert keywords == keywords[..n] + [keywords[n]];
    }
  }

  /** Both sides keep the order of the keywords. */
  lemma {:induction false} ThoseInOrder(a: seq<string>, b: seq<string>, mentioned: bool, bullets: seq<string>,
                                        strip: string -> string, lower: string -> string, isWord: char -> bool)
    ensures Those(a + b, mentioned, bullets, strip, lower, isWord)
            == Those(a, mentioned, bullets, strip, lower, isWord) + Those(b, mentioned, bullets, strip, lower, isWord)
  {
    hide MentionedIn;
    if b == [] {
      assert a + b == a;
    } else {
      assert (a + b)[..|a + b| - 1] == a + b[..|b| - 1];
      ThoseInOrder(a, b[..|b| - 1], mentioned, bullets, strip, lower, isWord);
    }
  }
}
