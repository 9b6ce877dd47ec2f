/** What rule texts say (src/routing/rule_parser.c:14-36), word by word and number by number, without
    the parser's own tables. */
module RuleTexts {
  import opened Bytes
  import opened Wrappers
  import opened Frames
  import opened RuleLexer
  import opened RuleParser
  import opened RuleExplain
  import opened RuleCompiler
  import opened RuleRouting

  // ----- numbers in base 8, 10 and 16 -----

  const LOWER: string := "0123456789abcdef"
  const UPPER: string := "0123456789ABCDEF"

  /** `c` is the digit of value `d`, in either case. */
  predicate IsDigit(c: char, d: nat) {
    d < 16 && (c == LOWER[d] || c == UPPER[d])
  }

  /** `s` spells the digit values `ds`. */
  predicate Spells(s: string, ds: seq<nat>, base: nat) {
    |s| == |ds| && forall i :: 0 <= i < |s| ==> ds[i] < base && IsDigit(s[i], ds[i])
  }

  function NumberIn(ds: seq<nat>, base: nat): nat {
    if ds == [] then 0 else NumberIn(ds[..|ds| - 1], base) * base + ds[|ds| - 1]
  }

  /** `rest` does not go on with a digit of the base. */
  predicate EndsDigits(rest: string, base: nat) {
    rest == "" || forall d :: 0 <= d < base ==> !IsDigit(rest[0], d)
  }

  lemma DigitIs(c: char, d: nat)
    requires d < 16
    ensures IsDigit(c, d) <==> Digit(c) == d
  {
  }

  lemma {:induction false} MagnitudeIs(s: string, start: nat, p: nat, ds: seq<nat>, base: nat)
    requires base <= 16 && start <= p <= start + |ds| <= |s|
    requires Spells(s[start..start + |ds|], ds, base) && EndsDigits(s[start + |ds|..], base)
    ensures Magnitude(s, p, base, NumberIn(ds[..p - start], base)) == NumberIn(ds, base)
    decreases |s| - p
  {
    hide Digit, IsDigit;
    var end, k := start + |ds|, p - start;
    if p == end {
      assert ds[..k] == ds;
      if p < |s| {
        var d := Digit(s[p]);
        assert s[end..][0] == s[p];
        if d < base { DigitIs(s[p], d); }
      }
    } else {
      assert s[start..end][k] == s[p];
      DigitIs(s[p], ds[k]);
      assert ds[..k + 1][..k] == ds[..k];
      MagnitudeIs(s, start, p + 1, ds, base);
    }
  }

  /** The prefix that selects the base, and what must not follow for it to be the prefix. */
  predicate Prefixed(prefix: string, base: nat, digits: string, rest: string) {
    (prefix == "" && base == 10 && digits != "" && digits[0] != '0') ||
    (prefix == "0" && base == 8 && (digits == "" && rest != "" ==> rest[0] != 'x' && rest[0] != 'X')) ||
    (prefix in {"0x", "0X"} && base == 16)
  }

  lemma DigitChars(c: char, d: nat, base: nat)
    requires d < base <= 16 && IsDigit(c, d)
    ensures !IsSpace(c) && c != '+' && c != '-' && c != 'x' && c != 'X'
  {
  }

  lemma FirstDigit(digits: string, ds: seq<nat>, base: nat)
    requires base <= 16 && Spells(digits, ds, base) && digits != ""
    ensures !IsSpace(digits[0]) && digits[0] != '+' && digits[0] != '-' && digits[0] != 'x' && digits[0] != 'X'
  {
    DigitChars(digits[0], ds[0], base);
    hide IsDigit, IsSpace;
  }

  /** The base is told from the first characters. */
  lemma BaseIs(s: string, p: nat, prefix: string, digits: string, ds: seq<nat>, base: nat, rest: string)
    requires p <= |s| && s[p..] == prefix + digits + rest && Prefixed(prefix, base, digits, rest)
    requires Spells(digits, ds, base)
    ensures p < |s| && !IsSpace(s[p]) && s[p] != '+' && s[p] != '-'
    ensures BaseAt(s, p) == base && (base == 8 ==> s[p] == '0') && (base == 16 ==> |prefix| == 2)
  {
    StartsWith(s, p, prefix, digits, rest);
    if digits != "" { FirstDigit(digits, ds, base); }
    hide Spells, IsSpace;
    ZeroIsNoSpace();
  }

  lemma SkipZero(s: string, p: nat)
    requires p < |s| && s[p] == '0'
    ensures Magnitude(s, p, 8, 0) == Magnitude(s, p + 1, 8, 0)
  {
  }

  /** The digits are read up to the first character that is none. */
  lemma UnsignedIsRead(s: string, p: nat, prefix: string, digits: string, ds: seq<nat>, base: nat, rest: string)
    requires p <= |s| && s[p..] == prefix + digits + rest && Prefixed(prefix, base, digits, rest)
    requires Spells(digits, ds, base) && EndsDigits(rest, base)
    ensures p < |s| && !IsSpace(s[p]) && s[p] != '+' && s[p] != '-'
    ensures BaseAt(s, p) == base
    ensures Magnitude(s, if base == 16 then p + 2 else p, base, 0) == NumberIn(ds, base)
  {
    hide IsDigit, EndsDigits, IsSpace, Spells, BaseAt, Magnitude;
    BaseIs(s, p, prefix, digits, ds, base, rest);
    StartsWith(s, p, prefix, digits, rest);
    var start := p + |prefix|;
    SameLength(digits, ds, base);
    MagnitudeIs(s, start, start, ds, base);
    assert ds[..0] == [];
    assert Magnitude(s, start, base, 0) == NumberIn(ds, base);
    if base == 8 { SkipZero(s, p); }
  }

  lemma SameLength(digits: string, ds: seq<nat>, base: nat)
    requires Spells(digits, ds, base)
    ensures |digits| == |ds|
  {
  }

  lemma StartsWith(s: string, p: nat, prefix: string, digits: string, rest: string)
    requires p <= |s| && s[p..] == prefix + digits + rest
    ensures var start, end := p + |prefix|, p + |prefix| + |digits|;
      end <= |s| && s[start..end] == digits && s[end..] == rest && s[p..start] == prefix &&
      (digits != "" ==> s[start] == digits[0]) && (rest != "" ==> end < |s| && s[end] == rest[0]) &&
      (rest == "" ==> end == |s|) &&
      (prefix != "" ==> s[p] == prefix[0]) && (|prefix| > 1 ==> s[p + 1] == prefix[1])
  {
  }

  lemma ZeroIsNoSpace()
    ensures !IsSpace('0')
  {
  }

  /** The base `strtol` takes for the number at `p`. */
  function BaseAt(s: string, p: nat): nat {
    if p >= |s| || s[p] != '0' then 10
    else if p + 1 < |s| && (s[p + 1] == 'x' || s[p + 1] == 'X') then 16
    else 8
  }

  lemma SignedIsRead(s: string, a: nat, sign: string)
    requires SkipSpaces(s, 0) == a && sign in {"", "+", "-"} && a + |sign| < |s| && sign <= s[a..]
    requires sign == "" ==> s[a] != '+' && s[a] != '-'
    ensures var p := a + |sign|;
      StrToL(s) == Clamp64(
        var m: int := Magnitude(s, if BaseAt(s, p) == 16 then p + 2 else p, BaseAt(s, p), 0);
        if sign == "-" then -m else m)
  {
    hide SkipSpaces, Magnitude, Clamp64;
    if sign != "" { assert s[a] == s[a..][0] == sign[0]; }
  }

  /** Any number text: white space, a sign, a prefix, digits, and something that is no digit. */
  lemma NumberIsRead(space: string, sign: string, prefix: string, digits: string, ds: seq<nat>, base: nat, rest: string)
    requires AllSpace(space) && sign in {"", "+", "-"} && Prefixed(prefix, base, digits, rest)
    requires Spells(digits, ds, base) && EndsDigits(rest, base)
    ensures var n: int := NumberIn(ds, base);
      StrToL(space + sign + prefix + digits + rest) == Clamp64(if sign == "-" then -n else n)
  {
    hide Spells, EndsDigits, Prefixed, Magnitude, BaseAt, IsSpace, NumberIn, StrToL, Clamp64;
    var s := space + sign + prefix + digits + rest;
    var a, number := |space|, prefix + digits + rest;
    SplitNumber(space, sign, prefix, digits, rest);
    UnsignedIsRead(s, a + |sign|, prefix, digits, ds, base, rest);
    SignIsNoSpace();
    assert s[0..a] == space;
    SkipSpacesIs(s, 0, a);
    SignedIsRead(s, a, sign);
  }

  lemma SplitNumber(space: string, sign: string, prefix: string, digits: string, rest: string)
    ensures var s, a := space + sign + prefix + digits + rest, |space|;
      s[..a] == space && s[a..] == sign + (prefix + digits + rest) && sign <= s[a..] &&
      s[a + |sign|..] == prefix + digits + rest && (sign != "" ==> s[a] == sign[0])
  {
  }

  lemma SignIsNoSpace()
    ensures !IsSpace('+') && !IsSpace('-')
  {
  }

  /** As a 32-bit value: the number, wrapped; and all ones or zero when it is out of a long's range. */
  lemma NumberIsWrapped(n: int)
    ensures Wrap32(Clamp64(n)) ==
      if -0x8000_0000_0000_0000 <= n < 0x8000_0000_0000_0000 then Wrap32(n) else if n > 0 then -1 else 0
  {
  }

  // ----- rules -----

  /** Words in any white space, of any length, are the tokens, the first ten of them, cut to 31. */
  lemma {:induction false} WordsAreTokens(text: cstring, gaps: seq<string>, words: seq<string>)
    requires WellSpaced(gaps, words) && text == Layout(gaps, words)
    ensures var tok := Tokens(text, 0, 10);
      |tok| == (if |words| <= 10 then |words| else 10) && forall k :: 0 <= k < |tok| ==> tok[k] == Cut(words[k])
  {
    assert text[0..] == text;
    TokensOfLayout(text, 0, gaps, words, 10);
    FirstCutAt(words, 10);
  }

  function Action(tail: seq<string>): string {
    if tail == [] then "" else Cut(tail[0])
  }

  lemma {:induction false} RangeTokens(tok: seq<string>, field: string)
    requires |tok| >= 4 && tok[0] == "range" && Cut(tok[1]) == field
    ensures Parsed(tok) == (OK, RuleAst(field, Range, ReadInt32(tok[2]), ReadInt32(tok[3]),
      if |tok| > 4 then Cut(tok[4]) else "", 10))
  {
    hide Cut, ReadInt32;
  }

  /** "range", a field and two numbers, and then at will an action and more words: the first number is
      the lower bound, the second the upper. */
  lemma {:induction false} RangeText(text: cstring, gaps: seq<string>, field: string, lo: int32, hi: int32,
      tail: seq<string>)
    requires WellSpaced(gaps, ["range", field, PrintInt(lo), PrintInt(hi)] + tail)
    requires text == Layout(gaps, ["range", field, PrintInt(lo), PrintInt(hi)] + tail) && |field| <= 31
    ensures ParsedText(text) == (OK, RuleAst(field, Range, lo, hi, Action(tail), 10))
  {
    hide PrintInt, ReadInt32, Tokens, WellSpaced, Layout, Cut, Parsed;
    var words := ["range", field, PrintInt(lo), PrintInt(hi)] + tail;
    PrintedIntIsRead(lo);
    PrintedIntIsRead(hi);
    WordsAreTokens(text, gaps, words);
    var tok := Tokens(text, 0, 10);
    ShortCut("range");
    ShortCut(field);
    ShortCut(PrintInt(lo));
    ShortCut(PrintInt(hi));
    assert tok[0] == words[0] && tok[1] == words[1] && tok[2] == words[2] && tok[3] == words[3];
    if tail != [] {
      assert tok[4] == Cut(words[4]) && words[4] == tail[0];
      CutTwice(tail[0]);
    }
    RangeTokens(tok, field);
  }

  lemma CutTwice(w: string)
    ensures Cut(Cut(w)) == Cut(w)
  {
  }

  datatype Relation = Equals | Exceeds | Below

  /** What an operator word stands for: the two signs and their names, and equality for any other. */
  function RelationOf(op: string): Relation {
    match op
    case ">" => Exceeds
    case "gt" => Exceeds
    case "<" => Below
    case "lt" => Below
    case _ => Equals
  }

  function OpOf(r: Relation): RuleOp {
    match r
    case Equals => CmpEq
    case Exceeds => CmpGt
    case Below => CmpLt
  }

  lemma OpIs(op: string)
    ensures ParseOp(op) == OpOf(RelationOf(op))
  {
  }

  lemma {:induction false} ComparisonTokens(tok: seq<string>, field: string)
    requires |tok| >= 3 && tok[0] != "range" && Cut(tok[0]) == field
    ensures Parsed(tok) == (OK, RuleAst(field, ParseOp(tok[1]), ReadInt32(tok[2]), 0,
      if |tok| > 3 then Cut(tok[3]) else "", if |tok| > 4 then ReadInt32(tok[4]) else 10))
  {
    hide Cut, ReadInt32, ParseOp;
  }

  /** A field, an operator and a number, and then at will an action, a priority and more words. */
  lemma {:induction false} ComparisonText(text: cstring, gaps: seq<string>, field: string, op: string, value: int32,
      tail: seq<string>, priority: int32)
    requires var words := [field, op, PrintInt(value)] + tail; WellSpaced(gaps, words) && text == Layout(gaps, words)
    requires field != "range" && |field| <= 31 && |op| <= 31
    requires if |tail| >= 2 then tail[1] == PrintInt(priority) else priority == 10
    ensures ParsedText(text) == (OK, RuleAst(field, OpOf(RelationOf(op)), value, 0, Action(tail), priority))
  {
    hide PrintInt, ReadInt32, Tokens, WellSpaced, Layout, Cut, Parsed, ParseOp, OpOf, RelationOf;
    var words := [field, op, PrintInt(value)] + tail;
    PrintedIntIsRead(value);
    PrintedIntIsRead(priority);
    WordsAreTokens(text, gaps, words);
    var tok := Tokens(text, 0, 10);
    ShortCut(field);
    ShortCut(op);
    ShortCut(PrintInt(value));
    ShortCut(PrintInt(priority));
    assert tok[0] == words[0] && tok[1] == words[1] && tok[2] == words[2];
    if tail != [] {
      assert tok[3] == Cut(words[3]) && words[3] == tail[0];
      CutTwice(tail[0]);
    }
    if |tail| >= 2 {
      assert tok[4] == Cut(words[4]) && words[4] == tail[1];
    }
    ComparisonTokens(tok, field);
    OpIs(op);
  }

  /** Too few words are refused: fewer than three, or "range" with two more. */
  lemma {:induction false} ShortTextIsRefused(text: cstring, gaps: seq<string>, words: seq<string>)
    requires WellSpaced(gaps, words) && text == Layout(gaps, words)
    ensures ParsedText(text).0 == Invalid <==> |words| < 3 || (|words| == 3 && words[0] == "range")
    ensures ParsedText(text).0 in {OK, Invalid}
  {
    WordsAreTokens(text, gaps, words);
    hide ReadInt32, Tokens, WellSpaced, Layout;
    ShortCut("range");
    if words != [] { RangeOnly(words[0]); }
  }

  lemma RangeOnly(w: string)
    ensures Cut(w) == "range" <==> w == "range"
  {
  }

  // ----- and what they accept -----

  /** A range text accepts the frames whose field lies between its two numbers. */
  lemma {:induction false} RangeAccepts(r: RuleText, gaps: seq<string>, field: string, lo: int32, hi: int32,
      tail: seq<string>, f: Frame)
    requires WellSpaced(gaps, ["range", field, PrintInt(lo), PrintInt(hi)] + tail)
    requires r.text == Layout(gaps, ["range", field, PrintInt(lo), PrintInt(hi)] + tail) && |field| <= 31
    ensures Accepts(r, f) <==> match FieldValue(f, field)
                               case Some(v) => lo <= v <= hi
                               case None => false
  {
    hide ParsedText, PrintInt, FieldValue, WellSpaced, Layout, Action;
    RangeText(r.text, gaps, field, lo, hi, tail);
  }

  /** A comparison text accepts the frames whose field stands in its relation to its number. */
  lemma {:induction false} ComparisonAccepts(r: RuleText, gaps: seq<string>, field: string, op: string, value: int32,
      tail: seq<string>, priority: int32, f: Frame)
    requires var words := [field, op, PrintInt(value)] + tail; WellSpaced(gaps, words) && r.text == Layout(gaps, words)
    requires field != "range" && |field| <= 31 && |op| <= 31
    requires if |tail| >= 2 then tail[1] == PrintInt(priority) else priority == 10
    ensures Accepts(r, f) <==> match FieldValue(f, field)
                               case Some(v) => if op == ">" || op == "gt" then v > value
                                               else if op == "<" || op == "lt" then v < value
                                               else v == value
                               case None => false
  {
    hide ParsedText, PrintInt, FieldValue, WellSpaced, Layout, Action;
    ComparisonText(r.text, gaps, field, op, value, tail, priority);
  }
}
