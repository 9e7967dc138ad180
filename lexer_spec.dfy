/** Reference definition of the scanner of src/lexer.py as pure functions over
    the text and a cursor position.  Each function returns what the matching
    method of `JSONLexer` returns together with the cursor position it leaves
    behind; the class in module Lexer is proved to agree with them.

    Character classes are narrowed from Python's Unicode `isspace`, `isdigit`
    and `isalpha` to the JSON whitespace set of section 2 of RFC 8259, the ASCII
    digits and the ASCII letters. */
module LexerSpec {
  import opened Exceptions
  import opened Values

  predicate IsWhitespace(c: char) { c == ' ' || c == '\t' || c == '\n' || c == '\r' }
  predicate IsDigit(c: char) { '0' <= c <= '9' }
  predicate IsAlpha(c: char) { 'a' <= c <= 'z' || 'A' <= c <= 'Z' }
  predicate IsHexDigit(c: char) { IsDigit(c) || 'a' <= c <= 'f' || 'A' <= c <= 'F' }

  datatype CharClass = Whitespace | Digit | Alpha

  predicate InClass(c: char, k: CharClass)
  {
    match k
    case Whitespace => IsWhitespace(c)
    case Digit => IsDigit(c)
    case Alpha => IsAlpha(c)
  }

  /** `current_char`: the character under the cursor, None past the end. */
  function CharAt(text: string, pos: nat): Option<char>
  {
    if pos < |text| then Some(text[pos]) else None
  }

  /** `text` holds `s` at position `pos`, character by character. */
  predicate At(text: string, pos: nat, s: string)
    decreases |s|
  {
    pos + |s| <= |text| && (s == [] || (text[pos] == s[0] && At(text, pos + 1, s[1..])))
  }

  lemma {:induction false} AtSlice(text: string, pos: nat, s: string)
    ensures At(text, pos, s) <==> pos + |s| <= |text| && text[pos..pos + |s|] == s
    decreases |s|
  {
    if s != [] && pos + |s| <= |text| {
      AtSlice(text, pos + 1, s[1..]);
      assert text[pos..pos + |s|] == [text[pos]] + text[pos + 1..pos + |s|];
      assert s == [s[0]] + s[1..];
    }
  }

  lemma {:induction false} AtIndex(text: string, pos: nat, s: string, i: nat)
    requires At(text, pos, s) && i < |s|
    ensures text[pos + i] == s[i]
    decreases |s|
  {
    if i > 0 {
      AtIndex(text, pos + 1, s[1..], i - 1);
    }
  }

  lemma {:induction false} AtConcat(text: string, pos: nat, s: string, t: string)
    ensures At(text, pos, s + t) <==> At(text, pos, s) && At(text, pos + |s|, t)
    decreases |s|
  {
    if s != [] {
      assert (s + t)[1..] == s[1..] + t;
      AtConcat(text, pos + 1, s[1..], t);
    } else {
      assert s + t == t;
    }
  }

  /** Where a `while current_char is in class k: advance()` loop stops. */
  function Span(text: string, pos: nat, k: CharClass): (r: nat)
    requires pos <= |text|
    ensures pos <= r <= |text|
    ensures forall i :: pos <= i < r ==> InClass(text[i], k)
    ensures r == |text| || !InClass(text[r], k)
    decreases |text| - pos
  {
    if pos < |text| && InClass(text[pos], k) then Span(text, pos + 1, k) else pos
  }

  /** A run of class `k` that is followed by something else ends where `Span` says. */
  lemma {:induction false} SpanExact(text: string, pos: nat, end: nat, k: CharClass)
    requires pos <= end <= |text|
    requires forall i :: pos <= i < end ==> InClass(text[i], k)
    requires end == |text| || !InClass(text[end], k)
    ensures Span(text, pos, k) == end
    decreases end - pos
  {
    if pos < end {
      SpanExact(text, pos + 1, end, k);
    }
  }

  // ---------------------------------------------------------------- tokens

  /** A number token: `int` when the lexeme has no `.`, `e` or `E`, else the lexeme. */
  datatype Number = Integer(i: int) | Fractional(lexeme: string)

  /** The single-character token kinds LBRACE, RBRACE, LBRACKET, RBRACKET, COMMA, COLON. */
  datatype Punct = LBrace | RBrace | LBracket | RBracket | Comma | Colon

  /** The tuples ('STRING', s), ('NUMBER', n), ('TRUE', True), ('FALSE', False),
      ('NULL', None) and (kind, char) of the source. */
  datatype Token =
    | TString(s: JString)
    | TNumber(n: Number)
    | TTrue
    | TFalse
    | TNull
    | TPunct(kind: Punct, ch: char)

  function PunctChar(k: Punct): char
  {
    match k
    case LBrace => '{'
    case RBrace => '}'
    case LBracket => '['
    case RBracket => ']'
    case Comma => ','
    case Colon => ':'
  }

  /** The `single_chars` table. */
  function PunctOf(c: char): (r: Option<Punct>)
    ensures r.Some? <==> c in "{}[],:"
    ensures r.Some? ==> PunctChar(r.value) == c
    ensures forall k :: PunctChar(k) == c ==> r == Some(k)
  {
    match c
    case '{' => Some(LBrace)
    case '}' => Some(RBrace)
    case '[' => Some(LBracket)
    case ']' => Some(RBracket)
    case ',' => Some(Comma)
    case ':' => Some(Colon)
    case _ => None
  }

  // --------------------------------------------------------------- strings

  /** The `escape_map` table: the character after a backslash and what it stands for. */
  function EscapeTable(c: char): (r: Option<CodePoint>)
    ensures r.Some? <==> c in "\"\\/bfnrt"
    ensures c == '"' || c == '\\' || c == '/' ==> r == Some(c as int)
  {
    match c
    case '"' => Some('"' as int)
    case '\\' => Some('\\' as int)
    case '/' => Some('/' as int)
    case 'b' => Some(0x08)
    case 'f' => Some(0x0C)
    case 'n' => Some('\n' as int)
    case 'r' => Some('\r' as int)
    case 't' => Some('\t' as int)
    case _ => None
  }

  function HexDigitValue(c: char): (r: nat)
    requires IsHexDigit(c)
    ensures r < 16
  {
    if IsDigit(c) then DigitValue(c)
    else if 'a' <= c <= 'f' then c as int - 'a' as int + 10
    else c as int - 'A' as int + 10
  }

  /** `int(hex_digits, 16)` for exactly four hexadecimal digits. */
  function Hex4Value(h: string): (r: CodePoint)
    requires |h| == 4 && forall i :: 0 <= i < 4 ==> IsHexDigit(h[i])
    ensures r < 0x1_0000
  {
    0x1000 * HexDigitValue(h[0]) + 0x100 * HexDigitValue(h[1])
      + 0x10 * HexDigitValue(h[2]) + HexDigitValue(h[3])
  }

  /** `_parse_escape_sequence` with the cursor on the character after the
      backslash: the decoded code unit and the cursor position it leaves (on the
      last character of the escape). */
  function Escape(text: string, pos: nat): (r: Result<(CodePoint, nat)>)
    requires pos <= |text|
    ensures r.Ok? ==> pos <= r.value.1 < |text|
    ensures r.Err? ==> r.error == Encoding || r.error == Syntax(Some(|text|), None)
  {
    if pos < |text| && EscapeTable(text[pos]).Some? then
      Ok((EscapeTable(text[pos]).value, pos))
    else if pos < |text| && text[pos] == 'u' then
      // `_next_chair` four times: running out of text comes before the hex check
      if pos + 4 >= |text| then Err(Syntax(Some(|text|), None))
      else if forall i :: pos < i <= pos + 4 ==> IsHexDigit(text[i]) then
        Ok((Hex4Value(text[pos + 1..pos + 5]), pos + 4))
      else Err(Encoding)
    else
      // also the case of a backslash at the very end: `None` is not in the table
      Err(Encoding)
  }

  /** The loop of `scan_string` from cursor `pos` with the characters decoded so
      far in `acc`: the whole content and the cursor just past the closing quote. */
  function ScanStringFrom(text: string, pos: nat, acc: JString): (r: Result<(JString, nat)>)
    requires pos <= |text|
    ensures r.Ok? ==> pos < r.value.1 <= |text| && text[r.value.1 - 1] == '"'
    decreases |text| - pos
  {
    if pos == |text| then Err(Syntax(Some(pos), None))
    else if text[pos] == '"' then Ok((acc, pos + 1))
    else if text[pos] == '\\' then
      match Escape(text, pos + 1)
      case Err(e) => Err(e)
      // repaired: the cursor is moved past the escape's last character
      case Ok((u, last)) => ScanStringFrom(text, last + 1, acc + [u])
    else ScanStringFrom(text, pos + 1, acc + [text[pos] as int])
  }

  /** `scan_string` with the cursor on the opening quote. */
  function ScanString(text: string, pos: nat): (r: Result<(JString, nat)>)
    requires pos < |text|
    ensures r.Ok? ==> pos + 1 < r.value.1 <= |text|
  {
    ScanStringFrom(text, pos + 1, [])
  }

  // --------------------------------------------------------------- numbers

  /** Value of a string of decimal digits. */
  function DigitsValue(s: string): nat
    requires forall i :: 0 <= i < |s| ==> IsDigit(s[i])
  {
    if s == [] then 0
    else 10 * DigitsValue(s[..|s| - 1]) + DigitValue(s[|s| - 1])
  }

  function DigitValue(c: char): (r: nat)
    requires IsDigit(c)
    ensures r < 10
  {
    c as int - '0' as int
  }

  /** `int(number_str)` for a lexeme `-?[0-9]+`. */
  function IntValue(lexeme: string): int
    requires |lexeme| > 0
    requires lexeme[0] == '-' || IsDigit(lexeme[0])
    requires forall i :: 0 < i < |lexeme| ==> IsDigit(lexeme[i])
  {
    if lexeme[0] == '-' then -(DigitsValue(lexeme[1..]) as int) else DigitsValue(lexeme)
  }

  /** After the integer part, at `pos`: where the optional fraction ends. */
  function FractionEnd(text: string, pos: nat): (r: Result<nat>)
    requires pos <= |text|
    ensures r.Ok? ==> pos <= r.value <= |text|
    ensures r.Ok? && r.value > pos ==> text[pos] == '.' && r.value > pos + 1
    ensures r.Ok? ==> forall i :: pos < i < r.value ==> IsDigit(text[i])
    ensures r.Err? <==> CharAt(text, pos) == Some('.') && !(pos + 1 < |text| && IsDigit(text[pos + 1]))
  {
    if CharAt(text, pos) == Some('.') then
      if pos + 1 < |text| && IsDigit(text[pos + 1]) then Ok(Span(text, pos + 1, Digit))
      else Err(Syntax(Some(pos + 1), None))
    else Ok(pos)
  }

  /** After the fraction, at `pos`: where the optional exponent ends. */
  function ExponentEnd(text: string, pos: nat): (r: Result<nat>)
    requires pos <= |text|
    ensures r.Ok? ==> pos <= r.value <= |text|
    ensures r.Ok? && r.value > pos ==> text[pos] in "eE"
  {
    if CharAt(text, pos) == Some('e') || CharAt(text, pos) == Some('E') then
      var q := if CharAt(text, pos + 1) == Some('+') || CharAt(text, pos + 1) == Some('-') then pos + 2 else pos + 1;
      if q < |text| && IsDigit(text[q]) then Ok(Span(text, q, Digit))
      else Err(Syntax(Some(q), None))
    else Ok(pos)
  }

  /** Does a lexeme have a `.`, `e` or `E`? Then `float` is taken, else `int`. */
  predicate HasFractionOrExponent(lexeme: string)
  {
    lexeme != [] && (lexeme[0] == '.' || lexeme[0] == 'e' || lexeme[0] == 'E' || HasFractionOrExponent(lexeme[1..]))
  }

  /** `HasFractionOrExponent` is `'.' in lexeme or 'e' in lexeme or 'E' in lexeme`. */
  lemma {:induction false} HasFractionOrExponentIn(lexeme: string)
    ensures HasFractionOrExponent(lexeme) <==> '.' in lexeme || 'e' in lexeme || 'E' in lexeme
  {
    if lexeme != [] {
      HasFractionOrExponentIn(lexeme[1..]);
      assert lexeme == [lexeme[0]] + lexeme[1..];
    }
  }

  lemma {:induction false} MarkAt(lexeme: string, i: nat)
    requires i < |lexeme| && (lexeme[i] == '.' || lexeme[i] == 'e' || lexeme[i] == 'E')
    ensures HasFractionOrExponent(lexeme)
  {
    if i > 0 {
      MarkAt(lexeme[1..], i - 1);
    }
  }

  lemma {:induction false} NoMark(lexeme: string)
    requires forall i :: 0 <= i < |lexeme| ==> lexeme[i] == '-' || IsDigit(lexeme[i])
    ensures !HasFractionOrExponent(lexeme)
  {
    if lexeme != [] {
      NoMark(lexeme[1..]);
    }
  }

  /** The first digit of a number starting at `pos`: after its minus sign, if any. */
  function SignEnd(text: string, pos: nat): nat
  {
    if CharAt(text, pos) == Some('-') then pos + 1 else pos
  }

  /** The cursor movements of `scan_number`: where the number starting at `pos`
      ends, None when the character there does not start a number.  A '-' not
      followed by a digit is a SyntaxError at the position after it (the source
      consumes it and returns None). */
  function NumberExtent(text: string, pos: nat): (r: Result<Option<nat>>)
    requires pos <= |text|
    ensures r.Ok? && r.value.Some? ==> pos < r.value.value <= |text| && (text[pos] == '-' || IsDigit(text[pos]))
    ensures (r.Ok? && r.value.None?) <==> !(pos < |text| && (text[pos] == '-' || IsDigit(text[pos])))
  {
    var p1 := SignEnd(text, pos);
    if !(p1 < |text| && IsDigit(text[p1])) then
      if p1 == pos then Ok(None) else Err(Syntax(Some(p1), None))
    else
      match NumberEnd(text, IntegerEnd(text, p1))
      case Err(e) => Err(e)
      case Ok(q) => Ok(Some(q))
  }

  /** A lexeme without '.', 'e' and 'E' is a sign and digits: `int` can convert it. */
  lemma {:induction false} ExtentLexeme(text: string, pos: nat)
    requires pos <= |text| && NumberExtent(text, pos).Ok? && NumberExtent(text, pos).value.Some?
    ensures var q := NumberExtent(text, pos).value.value;
            HasFractionOrExponent(text[pos..q]) || forall i :: pos < i < q ==> IsDigit(text[i])
  {
    var p2 := IntegerEnd(text, SignEnd(text, pos));
    if NumberEnd(text, p2).value > p2 {
      MarksRead(text, pos, p2);
    }
  }

  /** `scan_number`: the number the lexeme `text[pos..q]` converts to and the
      cursor `q` after it; None, with the cursor unmoved, when the character
      under the cursor does not start a number. */
  function ScanNumber(text: string, pos: nat): (r: Result<(Option<Number>, nat)>)
    requires pos <= |text|
    ensures r.Ok? ==> pos <= r.value.1 <= |text|
    ensures r.Ok? && r.value.0.None? ==> r.value.1 == pos
    ensures r.Ok? && r.value.0.Some? ==> pos < r.value.1
    ensures (r.Ok? && r.value.0.None?) <==> !(pos < |text| && (text[pos] == '-' || IsDigit(text[pos])))
  {
    match NumberExtent(text, pos)
    case Err(e) => Err(e)
    case Ok(None) => Ok((None, pos))
    case Ok(Some(q)) => ExtentLexeme(text, pos); Ok((Some(NumberOf(text[pos..q])), q))
  }

  /** The integer part `0 | [1-9][0-9]*` starting at `pos`: a leading '0' ends it. */
  function IntegerEnd(text: string, pos: nat): (r: nat)
    requires pos < |text| && IsDigit(text[pos])
    ensures pos < r <= |text|
    ensures forall i :: pos <= i < r ==> IsDigit(text[i])
  {
    if text[pos] == '0' then pos + 1 else Span(text, pos, Digit)
  }

  /** The fraction and exponent parts of `scan_number` after the integer part
      that ends at `p2`: where the number ends. */
  function NumberEnd(text: string, p2: nat): (r: Result<nat>)
    requires p2 <= |text|
    ensures r.Ok? ==> p2 <= r.value <= |text|
  {
    match FractionEnd(text, p2)
    case Err(e) => Err(e)
    case Ok(p3) => ExponentEnd(text, p3)
  }

  /** A number that goes on past its integer part has a '.' or an exponent marker. */
  lemma {:induction false} MarksRead(text: string, start: nat, p2: nat)
    requires start < p2 <= |text| && NumberEnd(text, p2).Ok? && NumberEnd(text, p2).value > p2
    ensures HasFractionOrExponent(text[start..NumberEnd(text, p2).value])
  {
    var p3 := FractionEnd(text, p2).value;
    var lexeme := text[start..NumberEnd(text, p2).value];
    if p3 > p2 {
      MarkAt(lexeme, p2 - start);
    } else {
      MarkAt(lexeme, p3 - start);
    }
  }

  /** The conversion that ends `scan_number`: `float(number_str)` (kept as the
      lexeme) when it has a '.', 'e' or 'E', else `int(number_str)`. */
  function NumberOf(lexeme: string): Number
    requires |lexeme| > 0 && (lexeme[0] == '-' || IsDigit(lexeme[0]))
    requires !HasFractionOrExponent(lexeme) ==> forall i :: 0 < i < |lexeme| ==> IsDigit(lexeme[i])
  {
    if HasFractionOrExponent(lexeme) then Fractional(lexeme) else Integer(IntValue(lexeme))
  }

  // ------------------------------------------------------------ get_next_token

  /** The keyword branch: the maximal run of letters at `pos`. */
  function Keyword(text: string, pos: nat): (r: Result<(Option<Token>, nat)>)
    requires pos < |text| && IsAlpha(text[pos])
    ensures r.Ok? ==> r.value.0.Some? && pos < r.value.1 <= |text|
  {
    var q := Span(text, pos, Alpha);
    var word := text[pos..q];
    if word == "true" then Ok((Some(TTrue), q))
    else if word == "false" then Ok((Some(TFalse), q))
    else if word == "null" then Ok((Some(TNull), q))
    else Err(Syntax(Some(pos), None))
  }

  /** `get_next_token`: the next token (None at end of input) and the cursor after it. */
  function NextToken(text: string, pos: nat): (r: Result<(Option<Token>, nat)>)
    requires pos <= |text|
    ensures r.Ok? ==> pos <= r.value.1 <= |text|
    ensures r.Ok? && r.value.0.Some? ==> pos < r.value.1
    ensures r.Ok? && r.value.0.None? ==> r.value.1 == |text|
    ensures (r.Ok? && r.value.0.None?) <==> Span(text, pos, Whitespace) == |text|
  {
    var p := Span(text, pos, Whitespace);
    if p == |text| then Ok((None, p))
    else if text[p] == '"' then
      match ScanString(text, p)
      case Err(e) => Err(e)
      case Ok((s, q)) => Ok((Some(TString(s)), q))
    else
      match ScanNumber(text, p)
      case Err(e) => Err(e)
      case Ok((Some(n), q)) => Ok((Some(TNumber(n)), q))
      case Ok((None, _)) =>
        if IsAlpha(text[p]) then Keyword(text, p)
        else match PunctOf(text[p])
          case Some(k) => Ok((Some(TPunct(k, text[p])), p + 1))
          case None => Err(Syntax(Some(p), Some(text[p])))
  }
}
