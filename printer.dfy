/** A writer for the value tree in the layout of Python's `json.dumps`, with
    `", "` between items and `": "` after keys, which is the layout of every
    text in tests/test_parser.py.  It is the partner the parser is proved
    against: module RoundTrip shows that the parser reads back what it writes. */
module Printer {
  import opened Values
  import opened LexerSpec
  import opened NumberGrammar

  /** A lowercase hexadecimal digit. */
  function HexDigit(d: nat): char
    requires d < 16
  {
    if d < 10 then DigitChar(d) else ('a' as int + (d - 10)) as char
  }

  lemma {:induction false} HexDigitValueOf(d: nat)
    requires d < 16
    ensures IsHexDigit(HexDigit(d)) && HexDigitValue(HexDigit(d)) == d
  {
  }

  /** The four hexadecimal digits of a code unit, most significant first. */
  function Hex4Text(u: nat): string
    requires u < 0x1_0000
  {
    var (a, low) := (u / 0x1000, u % 0x1000);
    var (b, low') := (low / 0x100, low % 0x100);
    [HexDigit(a), HexDigit(b), HexDigit(low' / 0x10), HexDigit(low' % 0x10)]
  }

  /** The four digits are hexadecimal and read back as the code unit. */
  lemma {:induction false} Hex4TextValue(u: nat)
    requires u < 0x1_0000
    ensures |Hex4Text(u)| == 4 && forall i :: 0 <= i < 4 ==> IsHexDigit(Hex4Text(u)[i])
    ensures Hex4Value(Hex4Text(u)) == u
  {
    var (a, low) := (u / 0x1000, u % 0x1000);
    var (b, low') := (low / 0x100, low % 0x100);
    HexDigitValueOf(a);
    HexDigitValueOf(b);
    HexDigitValueOf(low' / 0x10);
    HexDigitValueOf(low' % 0x10);
  }

  /** A code point that is no `char`: a lone surrogate code unit. */
  predicate IsSurrogate(c: CodePoint)
  {
    0xD800 <= c < 0xE000
  }

  /** How one code point is written between quotes: the quote and the
      backslash escaped, a surrogate as `\uXXXX`, anything else as itself. */
  function EscapeUnit(c: CodePoint): (r: string)
    ensures 0 < |r| <= 6
  {
    if c == '"' as int then "\\\""
    else if c == '\\' as int then "\\\\"
    else if IsSurrogate(c) then "\\u" + Hex4Text(c)
    else [c as char]
  }

  /** The contents of a string literal. */
  function Body(s: JString): string
  {
    if s == [] then "" else EscapeUnit(s[0]) + Body(s[1..])
  }

  /** A string literal. */
  function Quoted(s: JString): string
  {
    "\"" + (Body(s) + "\"")
  }

  /** What can be written: every fractional number is a whole number lexeme
      with a fraction or an exponent. */
  predicate Printable(v: Value)
  {
    match v
    case Frac(lexeme) => FracLexeme(lexeme)
    case Arr(items) => forall i :: 0 <= i < |items| ==> Printable(items[i])
    case Obj(ms) => forall i :: 0 <= i < |ms| ==> Printable(ms[i].1)
    case _ => true
  }

  /** The text of a value. */
  function Print(v: Value): string
    decreases v, 1
  {
    match v
    case Null => "null"
    case Bool(b) => if b then "true" else "false"
    case Int(i) => DecimalText(i)
    case Frac(lexeme) => lexeme
    case Str(s) => Quoted(s)
    case Arr(items) => "[" + (Items(items) + "]")
    case Obj(ms) => "{" + (Members(ms) + "}")
  }

  /** The items of an array, separated by `", "`. */
  function Items(items: seq<Value>): string
    decreases items, 0
  {
    if items == [] then ""
    else Print(items[0]) + (if |items| == 1 then "" else ", " + Items(items[1..]))
  }

  /** The entries of an object, each `key: value`, separated by `", "`. */
  function Members(ms: seq<(JString, Value)>): string
    decreases ms, 0
  {
    if ms == [] then ""
    else
      assert ms[0] in ms && ms[0].1 < ms[0];
      Quoted(ms[0].0) + (": " + (Print(ms[0].1) + (if |ms| == 1 then "" else ", " + Members(ms[1..]))))
  }
}
