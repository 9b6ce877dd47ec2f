/** The whitespace tokeniser of rule texts (src/routing/rule_lexer.c). */
module RuleLexer {

  /** The characters of a C string before its terminator. */
  type cstring = s: string | '\0' !in s

  /** `isspace` in the C locale. */
  predicate IsSpace(c: char) {
    c == ' ' || '\t' <= c <= '\r'
  }

  /** Blank, tab, line feed, vertical tab, form feed and carriage return. */
  lemma WhiteSpaceIs(c: char)
    ensures IsSpace(c) <==> c as int in {32, 9, 10, 11, 12, 13}
  {
  }

  predicate AllSpace(s: string) {
    forall i :: 0 <= i < |s| ==> IsSpace(s[i])
  }

  /** A nonempty run of characters that are not white space. */
  predicate IsWord(s: string) {
    s != "" && forall i :: 0 <= i < |s| ==> !IsSpace(s[i])
  }

  const TOKEN_CHARS: nat := 31

  /** A word as it fits a 32-byte token, or a name as `strncpy` leaves it in a 32-byte field. */
  function Cut(word: string): (t: string) {
    if |word| <= TOKEN_CHARS then word else word[..TOKEN_CHARS]
  }

  function SkipSpaces(s: string, p: nat): (q: nat)
    requires p <= |s|
    ensures p <= q <= |s| && (q < |s| ==> !IsSpace(s[q]))
    decreases |s| - p
  {
    if p < |s| && IsSpace(s[p]) then SkipSpaces(s, p + 1) else p
  }

  function SkipWord(s: string, p: nat): (q: nat)
    requires p <= |s|
    ensures p <= q <= |s| && (q < |s| ==> IsSpace(s[q]))
    decreases |s| - p
  {
    if p < |s| && !IsSpace(s[p]) then SkipWord(s, p + 1) else p
  }

  /** The first `max` words from position `p` on, each cut to the token size. */
  function Tokens(s: string, p: nat, max: nat): (ts: seq<string>)
    requires p <= |s|
    ensures |ts| <= max
    decreases max
  {
    var a := SkipSpaces(s, p);
    if max == 0 || a == |s| then []
    else
      var b := SkipWord(s, a);
      [Cut(s[a..b])] + Tokens(s, b, max - 1)
  }

  lemma TokensUnfold(s: string, p: nat, max: nat)
    requires p <= |s|
    ensures var a := SkipSpaces(s, p);
      Tokens(s, p, max) ==
        if max == 0 || a == |s| then [] else [Cut(s[a..SkipWord(s, a)])] + Tokens(s, SkipWord(s, a), max - 1)
  {
  }

  lemma CutAt(s: string, a: nat, b: nat, n: nat)
    requires a <= a + n <= b <= |s| && n <= TOKEN_CHARS && (n == TOKEN_CHARS || a + n == b)
    ensures Cut(s[a..b]) == s[a..a + n]
  {
  }

  method Lex(text: cstring, tokens: array<string>, max: nat) returns (count: nat)
    requires max <= tokens.Length
    modifies tokens
    ensures count == |Tokens(text, 0, max)|
    ensures tokens[..count] == Tokens(text, 0, max)
    ensures forall k :: count <= k < tokens.Length ==> tokens[k] == old(tokens[k])
  {
    hide IsSpace, Tokens, Cut, SkipSpaces, SkipWord;
    count := 0;
    var p := 0;
    ghost var done: seq<string> := [];
    while p < |text| && count < max
      invariant 0 <= p <= |text| && count == |done| <= max
      invariant Tokens(text, 0, max) == done + Tokens(text, p, max - count)
      invariant tokens[..count] == done
      invariant forall k :: count <= k < tokens.Length ==> tokens[k] == old(tokens[k])
      decreases max - count
    {
      TokensUnfold(text, p, max - count);
      p := PassSpaces(text, p);
      if p == |text| { break; }
      var token := CopyToken(text, p);
      tokens[count] := token;
      count := count + 1;
      p := PassWord(text, p);
      Regroup(done, token, Tokens(text, p, max - count));
      done := done + [token];
    }
    TokensUnfold(text, p, max - count);
    SpacesEnd(text, p);
  }

  lemma SpacesEnd(s: string, p: nat)
    requires p <= |s|
    ensures p == |s| ==> SkipSpaces(s, p) == |s|
  {
  }

  lemma Regroup(done: seq<string>, token: string, rest: seq<string>)
    ensures done + ([token] + rest) == (done + [token]) + rest
  {
  }

  /** The loop over white space. */
  method PassSpaces(text: string, start: nat) returns (p: nat)
    requires start <= |text|
    ensures p == SkipSpaces(text, start)
  {
    hide IsSpace;
    p := start;
    while p < |text| && IsSpace(text[p])
      invariant p <= |text| && SkipSpaces(text, p) == SkipSpaces(text, start)
    {
      p := p + 1;
    }
  }

  /** The loop that measures the token, and its copy. */
  method CopyToken(text: string, p: nat) returns (token: string)
    requires p <= |text|
    ensures token == Cut(text[p..SkipWord(text, p)])
  {
    hide IsSpace, Cut;
    var n := 0;
    while p + n < |text| && !IsSpace(text[p + n]) && n < 31
      invariant n <= 31 && p + n <= |text| && SkipWord(text, p + n) == SkipWord(text, p)
    {
      n := n + 1;
    }
    CutAt(text, p, SkipWord(text, p), n);
    token := text[p..p + n];
  }

  /** The loop over the whole word. */
  method PassWord(text: string, start: nat) returns (p: nat)
    requires start <= |text|
    ensures p == SkipWord(text, start)
  {
    hide IsSpace;
    p := start;
    while p < |text| && !IsSpace(text[p])
      invariant p <= |text| && SkipWord(text, p) == SkipWord(text, start)
    {
      p := p + 1;
    }
  }

  // ----- what a tokenised text looks like -----

  /** Words with the white space around them written out: gap, word, gap, ..., word, gap. */
  function Layout(gaps: seq<string>, words: seq<string>): string
    requires |gaps| == |words| + 1
  {
    if words == [] then gaps[0] else gaps[0] + words[0] + Layout(gaps[1..], words[1..])
  }

  /** Gaps are white space, and the ones between two words are not empty. */
  ghost predicate WellSpaced(gaps: seq<string>, words: seq<string>) {
    |gaps| == |words| + 1 &&
    (forall i :: 0 <= i < |words| ==> IsWord(words[i])) &&
    (forall i :: 0 <= i < |gaps| ==> AllSpace(gaps[i])) &&
    forall i :: 1 <= i < |words| ==> gaps[i] != ""
  }

  function FirstCut(words: seq<string>, max: nat): seq<string> {
    if max == 0 || words == [] then [] else [Cut(words[0])] + FirstCut(words[1..], max - 1)
  }

  lemma {:induction false} FirstCutAt(words: seq<string>, max: nat)
    ensures |FirstCut(words, max)| == if |words| <= max then |words| else max
    ensures forall k :: 0 <= k < |FirstCut(words, max)| ==> FirstCut(words, max)[k] == Cut(words[k])
    decreases max
  {
    hide Cut;
    if max > 0 && words != [] {
      FirstCutAt(words[1..], max - 1);
    }
  }

  lemma {:induction false} SkipSpacesIs(s: string, p: nat, q: nat)
    requires p <= q <= |s| && AllSpace(s[p..q]) && (q < |s| ==> !IsSpace(s[q]))
    ensures SkipSpaces(s, p) == q
    decreases q - p
  {
    if p < q {
      assert s[p..q][0] == s[p] && s[p..q][1..] == s[p + 1..q];
      SkipSpacesIs(s, p + 1, q);
    }
  }

  lemma {:induction false} SkipWordIs(s: string, p: nat, q: nat)
    requires p <= q <= |s| && (q < |s| ==> IsSpace(s[q])) && (p < q ==> IsWord(s[p..q]))
    ensures SkipWord(s, p) == q
    decreases q - p
  {
    if p < q {
      assert s[p..q][0] == s[p] && s[p..q][1..] == s[p + 1..q];
      SkipWordIs(s, p + 1, q);
    }
  }

  lemma {:induction false} SkippedSpaces(s: string, p: nat)
    requires p <= |s|
    ensures AllSpace(s[p..SkipSpaces(s, p)])
    decreases |s| - p
  {
    if p < |s| && IsSpace(s[p]) {
      SkippedSpaces(s, p + 1);
      assert s[p..SkipSpaces(s, p)] == [s[p]] + s[p + 1..SkipSpaces(s, p)];
    }
  }

  lemma {:induction false} SkippedWord(s: string, p: nat)
    requires p < |s| && !IsSpace(s[p])
    ensures IsWord(s[p..SkipWord(s, p)])
    decreases |s| - p
  {
    assert s[p..SkipWord(s, p)] == [s[p]] + s[p + 1..SkipWord(s, p)];
    if p + 1 < |s| && !IsSpace(s[p + 1]) {
      SkippedWord(s, p + 1);
    }
  }

  lemma TailWellSpaced(gaps: seq<string>, words: seq<string>)
    requires WellSpaced(gaps, words) && words != []
    ensures WellSpaced(gaps[1..], words[1..])
  {
  }

  lemma LayoutStart(gaps: seq<string>, words: seq<string>)
    requires WellSpaced(gaps, words)
    ensures gaps[0] != "" ==> Layout(gaps, words) != "" && IsSpace(Layout(gaps, words)[0])
    ensures words == [] && gaps[0] == "" ==> Layout(gaps, words) == ""
    ensures words != [] && gaps[0] == "" ==> Layout(gaps, words) != "" && !IsSpace(Layout(gaps, words)[0])
  {
    if words != [] {
      assert !IsSpace(words[0][0]);
    }
  }

  /** The tokens are the words, whatever white space separates them. */
  lemma {:induction false} TokensOfLayout(s: string, p: nat, gaps: seq<string>, words: seq<string>, max: nat)
    requires WellSpaced(gaps, words) && p <= |s| && s[p..] == Layout(gaps, words)
    ensures Tokens(s, p, max) == FirstCut(words, max)
    decreases max
  {
    hide IsSpace, Cut, AllSpace, IsWord;
    var g := |gaps[0]|;
    if words == [] {
      assert s[p..|s|] == gaps[0];
      SkipSpacesIs(s, p, |s|);
    } else if max > 0 {
      var rest := Layout(gaps[1..], words[1..]);
      var a, b := p + g, p + g + |words[0]|;
      WordIsNot(words[0]);
      assert s[p..a] == gaps[0] && s[a..b] == words[0] && s[b..] == rest;
      assert s[a] == words[0][0] && (b < |s| ==> s[b] == rest[0]);
      TailWellSpaced(gaps, words);
      LayoutStart(gaps[1..], words[1..]);
      SkipSpacesIs(s, p, a);
      SkipWordIs(s, a, b);
      TokensOfLayout(s, b, gaps[1..], words[1..], max - 1);
    }
  }

  lemma WordIsNot(w: string)
    requires IsWord(w)
    ensures w != "" && !IsSpace(w[0])
  {
  }

  /** Every text is such a layout, so the tokens of any text are its first words. */
  lemma {:induction false} EveryTextIsALayout(s: string, p: nat) returns (gaps: seq<string>, words: seq<string>)
    requires p <= |s|
    ensures WellSpaced(gaps, words) && Layout(gaps, words) == s[p..]
    decreases |s| - p
  {
    hide IsSpace, AllSpace, IsWord;
    var a := SkipSpaces(s, p);
    SkippedSpaces(s, p);
    if a == |s| {
      assert s[p..a] == s[p..];
      gaps, words := [s[p..]], [];
    } else {
      var b := SkipWord(s, a);
      SkippedWord(s, a);
      var gs, ws := EveryTextIsALayout(s, b);
      gaps, words := [s[p..a]] + gs, [s[a..b]] + ws;
      assert gaps[1..] == gs && words[1..] == ws;
      assert s[p..] == s[p..a] + s[a..b] + s[b..];
      LayoutStart(gs, ws);
      assert s[b..] != "" ==> s[b..][0] == s[b];
      assert forall i :: 1 <= i < |gaps| ==> gaps[i] == gs[i - 1];
      assert forall i :: 1 <= i < |words| ==> words[i] == ws[i - 1];
    }
  }

  predicate IsToken(t: string, s: string) {
    IsWord(t) && |t| <= TOKEN_CHARS && ('\0' !in s ==> '\0' !in t)
  }

  lemma {:induction false} TokensAreWords(s: string, p: nat, max: nat)
    requires p <= |s|
    ensures forall i :: 0 <= i < |Tokens(s, p, max)| ==> IsToken(Tokens(s, p, max)[i], s)
    decreases max
  {
    hide IsSpace;
    var a := SkipSpaces(s, p);
    if max > 0 && a < |s| {
      SkippedWord(s, a);
      assert IsToken(Cut(s[a..SkipWord(s, a)]), s);
      hide IsToken;
      TokensAreWords(s, SkipWord(s, a), max - 1);
    }
  }
}
