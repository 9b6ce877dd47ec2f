/** Rule texts to rule records (src/routing/rule_parser.c). */
module RuleParser {
  import opened Bytes
  import opened RuleLexer

  datatype RuleOp = CmpEq | CmpGt | CmpLt | Range

  datatype RuleAst = RuleAst(
    field: string,
    op: RuleOp,
    value: int32,
    high: int32,
    action: string,
    priority: int32)

  /** The record after `memset(out, 0, ...)`. */
  const BLANK: RuleAst := RuleAst("", CmpEq, 0, 0, "", 0)

  function ParseOp(s: string): RuleOp {
    if s == ">" || s == "gt" then CmpGt
    else if s == "<" || s == "lt" then CmpLt
    else CmpEq
  }

  // ----- strtol with base 0, for a 64-bit long -----

  /** The value of a digit or letter; 36 for anything else. */
  function Digit(c: char): nat {
    if '0' <= c <= '9' then c as int - '0' as int
    else if 'a' <= c <= 'z' then c as int - 'a' as int + 10
    else if 'A' <= c <= 'Z' then c as int - 'A' as int + 10
    else 36
  }

  /** Reads digits from position `p` until a character that is not one. */
  function Magnitude(s: string, p: nat, base: nat, acc: nat): nat
    requires p <= |s|
    decreases |s| - p
  {
    if p < |s| && Digit(s[p]) < base then Magnitude(s, p + 1, base, acc * base + Digit(s[p])) else acc
  }

  function Clamp64(n: int): int {
    if n > 0x7fff_ffff_ffff_ffff then 0x7fff_ffff_ffff_ffff
    else if n < -0x8000_0000_0000_0000 then -0x8000_0000_0000_0000
    else n
  }

  /** `strtol(s, NULL, 0)`: white space, a sign, then hexadecimal, octal or decimal by prefix. */
  function StrToL(s: string): int {
    var a := SkipSpaces(s, 0);
    var signed := a < |s| && (s[a] == '-' || s[a] == '+');
    var p := if signed then a + 1 else a;
    var base: nat :=
      if p == |s| || s[p] != '0' then 10
      else if p + 1 < |s| && (s[p + 1] == 'x' || s[p + 1] == 'X') then 16
      else 8;
    var m: int := Magnitude(s, if base == 16 then p + 2 else p, base, 0);
    Clamp64(if signed && s[a] == '-' then -m else m)
  }

  /** `(int32_t)strtol(s, NULL, 0)`. */
  function ReadInt32(s: string): int32 {
    Wrap32(StrToL(s))
  }

  // ----- the parser -----

  /** The status and the record for a token list of at most ten tokens. */
  function Parsed(tok: seq<string>): (Status, RuleAst) {
    var n := |tok|;
    if n < 3 then (Invalid, BLANK)
    else if tok[0] == "range" then
      if n < 4 then (Invalid, BLANK.(priority := 10))
      else (OK, RuleAst(Cut(tok[1]), Range, ReadInt32(tok[2]), ReadInt32(tok[3]),
                        if n > 4 then Cut(tok[4]) else "", 10))
    else
      (OK, RuleAst(Cut(tok[0]), ParseOp(tok[1]), ReadInt32(tok[2]), 0, if n > 3 then Cut(tok[3]) else "",
                   if n > 4 then ReadInt32(tok[4]) else 10))
  }

  const MAX_TOKENS: nat := 10

  function ParsedText(text: cstring): (Status, RuleAst) {
    Parsed(Tokens(text, 0, MAX_TOKENS))
  }

  method Parse(text: cstring) returns (rc: Status, out: RuleAst)
    ensures (rc, out) == ParsedText(text)
  {
    hide Tokens, Cut, ReadInt32, ParseOp;
    var tok := new string[10](_ => "");
    out := BLANK;
    var n := Lex(text, tok, 10);
    if n < 3 { return Invalid, out; }
    out := out.(priority := 10);
    if tok[0] == "range" {
      if n < 4 { return Invalid, out; }
      out := out.(field := Cut(tok[1]));
      out := out.(op := Range);
      out := out.(value := ReadInt32(tok[2]));
      out := out.(high := ReadInt32(tok[3]));
      if n > 4 { out := out.(action := Cut(tok[4])); }
      return OK, out;
    }
    out := out.(field := Cut(tok[0]));
    out := out.(op := ParseOp(tok[1]));
    out := out.(value := ReadInt32(tok[2]));
    if n > 3 { out := out.(action := Cut(tok[3])); }
    if n > 4 { out := out.(priority := ReadInt32(tok[4])); }
    return OK, out;
  }

  /** A parsed field name is one word of at most 31 characters. */
  lemma ParsedFieldIsWord(text: cstring)
    requires ParsedText(text).0 == OK
    ensures var ast := ParsedText(text).1;
      IsWord(ast.field) && |ast.field| <= TOKEN_CHARS && '\0' !in ast.field &&
      (ast.op != Range ==> ast.field != "range")
  {
    TokensAreWords(text, 0, MAX_TOKENS);
  }
}
