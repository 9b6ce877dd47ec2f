/** Printing a rule (src/routing/rule_explain.c), and how far parsing the print-out undoes it. */
module RuleExplain {
  import opened Bytes
  import opened RuleLexer
  import opened RuleParser

  function OpText(op: RuleOp): string {
    match op
    case Range => "range"
    case CmpGt => ">"
    case CmpLt => "<"
    case CmpEq => "=="
  }

  function DecimalDigit(d: nat): char
    requires d < 10
  {
    '0' + d as char
  }

  /** The decimal digits of `n`, without leading zeros. */
  function Decimal(n: nat): (s: string)
    ensures s != ""
  {
    if n < 10 then [DecimalDigit(n)] else Decimal(n / 10) + [DecimalDigit(n % 10)]
  }

  /** `%d`. */
  function PrintInt(v: int32): string {
    if v < 0 then "-" + Decimal(-(v as int)) else Decimal(v)
  }

  /** The whole text `snprintf` would print. */
  function ExplainText(ast: RuleAst): string {
    ast.field + " " + OpText(ast.op) + " " + PrintInt(ast.value)
  }

  /** The text left in a buffer of `len` bytes, and the length that was wanted. */
  function Explain(ast: RuleAst, len: nat): (r: (string, nat)) {
    var text := ExplainText(ast);
    (if |text| < len then text else if len == 0 then "" else text[..len - 1], |text|)
  }

  // ----- reading back a printed number -----

  predicate AllDigits(s: string) {
    forall i :: 0 <= i < |s| ==> '0' <= s[i] <= '9'
  }

  function NumberOf(s: string): nat
    requires AllDigits(s)
  {
    if s == "" then 0 else NumberOf(s[..|s| - 1]) * 10 + (s[|s| - 1] as int - '0' as int)
  }

  lemma {:induction false} DecimalIsExact(n: nat)
    ensures AllDigits(Decimal(n)) && NumberOf(Decimal(n)) == n
    ensures n > 0 ==> Decimal(n)[0] != '0'
  {
    if n < 10 {
      assert Decimal(n)[..0] == "";
    } else {
      DecimalIsExact(n / 10);
      var s := Decimal(n / 10);
      assert Decimal(n)[..|s|] == s;
    }
  }

  lemma {:induction false} DecimalLength(n: nat, k: nat)
    requires n < Power10(k) && k > 0
    ensures |Decimal(n)| <= k
  {
    if n >= 10 {
      DecimalLength(n / 10, k - 1);
    }
  }

  function Power10(k: nat): nat {
    if k == 0 then 1 else 10 * Power10(k - 1)
  }

  lemma PrintedIntIsShort(v: int32)
    ensures |PrintInt(v)| <= 11
  {
    assert Power10(5) == 100000;
    assert Power10(10) == 100000 * Power10(5);
    DecimalLength(if v < 0 then -(v as int) else v, 10);
  }

  lemma DecimalDigitIs(c: char)
    ensures '0' <= c <= '9' ==> Digit(c) == c as int - '0' as int < 10
  {
  }

  /** Reading base ten from `p` on, with the number read so far in `acc`. */
  lemma {:induction false} MagnitudeReads(s: string, start: nat, p: nat)
    requires start <= p <= |s| && AllDigits(s[start..])
    ensures AllDigits(s[start..p])
    ensures Magnitude(s, p, 10, NumberOf(s[start..p])) == NumberOf(s[start..])
    decreases |s| - p
  {
    hide Digit;
    assert forall i :: 0 <= i < p - start ==> s[start..p][i] == s[start..][i];
    if p == |s| {
      assert s[start..p] == s[start..];
    } else {
      assert s[start..][p - start] == s[p];
      DecimalDigitIs(s[p]);
      assert s[start..p + 1][..p - start] == s[start..p];
      MagnitudeReads(s, start, p + 1);
    }
  }

  /** Digits behind at most a minus sign, without a leading zero, are read in base ten. */
  lemma DecimalIsRead(s: string, negative: bool)
    requires var start := if negative then 1 else 0;
      |s| > start && (negative ==> s[0] == '-') && AllDigits(s[start..]) && s[start] != '0'
    ensures var start := if negative then 1 else 0;
      StrToL(s) == Clamp64(if negative then -(NumberOf(s[start..]) as int) else NumberOf(s[start..]))
  {
    var start := if negative then 1 else 0;
    assert s[start] == s[start..][0];
    MagnitudeReads(s, start, start);
    assert s[start..start] == "";
    EmptyNumber();
    hide Magnitude, NumberOf, Clamp64;
  }

  lemma PrintedDigits(v: int32)
    requires v != 0
    ensures var negative := v < 0; var start := if negative then 1 else 0; var s := PrintInt(v);
      |s| > start && (negative ==> s[0] == '-') && AllDigits(s[start..]) && s[start] != '0' &&
      NumberOf(s[start..]) == (if negative then -(v as int) else v)
  {
    var start := if v < 0 then 1 else 0;
    var m: nat := if v < 0 then -(v as int) else v;
    DecimalIsExact(m);
    hide Decimal, NumberOf;
    assert PrintInt(v)[start..] == Decimal(m);
    assert PrintInt(v)[start] == Decimal(m)[0];
  }

  lemma DigitsAreWord(s: string, negative: bool)
    requires var start := if negative then 1 else 0; |s| > start && (negative ==> s[0] == '-') && AllDigits(s[start..])
    ensures IsWord(s) && '\0' !in s
  {
    var start := if negative then 1 else 0;
    assert forall i :: start <= i < |s| ==> s[i] == s[start..][i - start];
  }

  lemma PrintedIntIsRead(v: int32)
    ensures IsWord(PrintInt(v)) && '\0' !in PrintInt(v) && |PrintInt(v)| <= 11 && ReadInt32(PrintInt(v)) == v
  {
    PrintedIntIsShort(v);
    if v == 0 {
      ZeroIsRead();
    } else {
      hide PrintInt, NumberOf, StrToL, IsWord, AllDigits;
      PrintedDigits(v);
      DecimalIsRead(PrintInt(v), v < 0);
      DigitsAreWord(PrintInt(v), v < 0);
    }
  }

  lemma EmptyNumber()
    ensures NumberOf("") == 0
  {
  }

  lemma ZeroIsRead()
    ensures Decimal(0) == "0" && Magnitude("0", 0, 8, 0) == 0
  {
  }

  // ----- explain, then parse -----

  lemma OpTextIsWord(op: RuleOp)
    ensures IsWord(OpText(op)) && |OpText(op)| <= 5 && '\0' !in OpText(op)
    ensures ParseOp(OpText(op)) == if op == Range then CmpEq else op
  {
  }

  lemma ThreeWords(a: string, b: string, c: string)
    requires IsWord(a) && IsWord(b) && IsWord(c)
    ensures Tokens(a + " " + b + " " + c, 0, MAX_TOKENS) == [Cut(a), Cut(b), Cut(c)]
  {
    hide IsWord, Tokens, Cut;
    var text := a + " " + b + " " + c;
    var words := [a, b, c];
    var gaps := ["", " ", " ", ""];
    assert gaps[1..] == [" ", " ", ""] && gaps[1..][1..] == [" ", ""] && gaps[1..][1..][1..] == [""];
    assert words[1..] == [b, c] && words[1..][1..] == [c] && words[1..][1..][1..] == [];
    assert Layout([" ", ""], [c]) == " " + c + Layout([""], []);
    assert text[0..] == Layout(gaps, words);
    TokensOfLayout(text, 0, gaps, words, MAX_TOKENS);
    assert FirstCut([c], 8) == [Cut(c)] + FirstCut([], 7);
  }

  /** What parsing the explained text of any rule with a parsed field gives. */
  lemma Reparsed(ast: RuleAst)
    requires IsWord(ast.field) && |ast.field| <= TOKEN_CHARS
    ensures Parsed(Tokens(ExplainText(ast), 0, MAX_TOKENS)) ==
      if ast.field == "range" then (Invalid, BLANK.(priority := 10))
      else (OK, RuleAst(ast.field, if ast.op == Range then CmpEq else ast.op, ast.value, 0, "", 10))
  {
    OpTextIsWord(ast.op);
    PrintedIntIsRead(ast.value);
    hide PrintInt, OpText, ReadInt32, IsWord, Tokens, ParseOp;
    ThreeWords(ast.field, OpText(ast.op), PrintInt(ast.value));
  }

  /** `back` is the same comparison as `ast`: field, operator and value. */
  predicate SameComparison(ast: RuleAst, back: RuleAst) {
    back.field == ast.field && back.op == ast.op && back.value == ast.value
  }

  /** Parsing an explained rule gives the same comparison if and only if the rule is not a range. */
  lemma ExplainThenParse(text: cstring)
    requires ParsedText(text).0 == OK
    ensures
      var ast := ParsedText(text).1;
      var (rc, back) := Parsed(Tokens(ExplainText(ast), 0, MAX_TOKENS));
      ast.op != Range <==> rc == OK && SameComparison(ast, back)
  {
    ParsedFieldIsWord(text);
    hide ParsedText, ExplainText, IsWord, Tokens, Parsed;
    Reparsed(ParsedText(text).1);
  }

  /** A range rule loses its upper bound: its text reads back as an equality, or not at all. */
  lemma ExplainedRange(text: cstring)
    requires ParsedText(text).0 == OK && ParsedText(text).1.op == Range
    ensures
      var ast := ParsedText(text).1;
      var (rc, back) := Parsed(Tokens(ExplainText(ast), 0, MAX_TOKENS));
      if ast.field == "range" then rc == Invalid
      else rc == OK && SameComparison(ast.(op := CmpEq), back)
  {
    ParsedFieldIsWord(text);
    hide ParsedText, ExplainText, IsWord, Tokens, Parsed;
    Reparsed(ParsedText(text).1);
  }

  /** The text of a parsed rule is a C string that a 50-byte buffer holds whole. */
  lemma FiftyBytesSuffice(text: cstring)
    requires ParsedText(text).0 == OK
    ensures
      var ast := ParsedText(text).1;
      '\0' !in ExplainText(ast) && |ExplainText(ast)| < 50 && Explain(ast, 50) == (ExplainText(ast), |ExplainText(ast)|)
  {
    var ast := ParsedText(text).1;
    ParsedFieldIsWord(text);
    OpTextIsWord(ast.op);
    PrintedIntIsRead(ast.value);
    hide ParsedText, PrintInt, OpText, ReadInt32, IsWord;
  }

  /** A comparison written with single blanks and in decimal is printed as it was written. */
  lemma CanonicalTextIsKept(field: string, op: string, value: int32)
    requires IsWord(field) && |field| <= 31 && field != "range" && op in {"==", ">", "<"}
    ensures var text := field + " " + op + " " + PrintInt(value);
      var (rc, ast) := Parsed(Tokens(text, 0, MAX_TOKENS));
      rc == OK && ExplainText(ast) == text
  {
    hide PrintInt, ReadInt32, IsWord, Tokens, ParseOp, OpText, Cut;
    PrintedIntIsRead(value);
    WrittenOp(op);
    ThreeWords(field, op, PrintInt(value));
    ShortCut(field);
    ShortCut(op);
    ShortCut(PrintInt(value));
  }

  lemma WrittenOp(op: string)
    requires op in {"==", ">", "<"}
    ensures IsWord(op) && |op| <= 31 && OpText(ParseOp(op)) == op
  {
  }

  lemma ShortCut(w: string)
    ensures |w| <= 31 ==> Cut(w) == w
  {
  }

  /** What is left in a buffer: as much of the text as fits in front of the terminator. */
  lemma BufferHoldsPrefix(ast: RuleAst, len: nat)
    ensures var (kept, wanted) := Explain(ast, len);
      wanted == |ExplainText(ast)| && kept <= ExplainText(ast) &&
      (len > 0 ==> |kept| == if wanted < len then wanted else len - 1) && (len == 0 ==> kept == "")
  {
    hide ExplainText;
  }
}
