/** `JSONLexer` of src/lexer.py: a cursor over the text that `advance` moves one
    character at a time.  Every method is proved to return what the matching
    reference function of module LexerSpec returns, and to leave the cursor
    where that function says. */
module Lexer {
  import opened Exceptions
  import opened Values
  import opened LexerSpec

  class JSONLexer {
    const text: string
    var position: nat
    var currentChar: Option<char>

    /** The cursor invariant: `current_char` is `text[position]`, or None at the end. */
    ghost predicate Valid()
      reads this
    {
      position <= |text| && currentChar == CharAt(text, position)
    }

    constructor (text: string)
      ensures Valid()
      ensures this.text == text && position == 0
    {
      this.text := text;
      position := 0;
      currentChar := if text != [] then Some(text[0]) else None;
    }

    /** Moves the cursor one character forward; past the last character the
        current character is None. */
    method Advance()
      requires Valid()
      modifies this
      ensures position == old(position) + 1
      ensures currentChar == CharAt(text, position)
      ensures old(position) < |text| ==> Valid()
    {
      position := position + 1;
      if position < |text| {
        currentChar := Some(text[position]);
      } else {
        currentChar := None;
      }
    }

    method SkipWhitespace()
      requires Valid()
      modifies this
      ensures Valid()
      ensures old(position) <= position
      ensures forall i :: old(position) <= i < position ==> IsWhitespace(text[i])
      ensures currentChar.None? || !IsWhitespace(currentChar.value)
      ensures position == Span(text, old(position), Whitespace)
    {
      while currentChar.Some? && IsWhitespace(currentChar.value)
        invariant Valid() && old(position) <= position
        invariant forall i :: old(position) <= i < position ==> IsWhitespace(text[i])
        decreases |text| - position
      {
        Advance();
      }
    }

    /** `_next_chair`: advance, then the new current character; running off the
        end is a SyntaxError at the new position. */
    method NextChar() returns (r: Result<char>)
      requires Valid()
      modifies this
      ensures position == old(position) + 1
      ensures r == if position < |text| then Ok(text[position]) else Err(Syntax(Some(position), None))
      ensures old(position) < |text| ==> Valid()
    {
      Advance();
      if currentChar.None? {
        return Err(Syntax(Some(position), None));
      }
      return Ok(currentChar.value);
    }

    /** `_parse_escape_sequence`, with the cursor on the character after the
        backslash; leaves the cursor on the last character of the escape. */
    method ParseEscapeSequence() returns (r: Result<CodePoint>)
      requires Valid()
      modifies this
      ensures Valid()
      ensures r == Payload(Escape(text, old(position)))
      ensures r.Ok? ==> position == Escape(text, old(position)).value.1
    {
      if currentChar.Some? && EscapeTable(currentChar.value).Some? {
        return Ok(EscapeTable(currentChar.value).value);
      } else if currentChar == Some('u') {
        var hex: string := [];
        for k := 0 to 4
          invariant Valid()
          invariant position == old(position) + k < |text|
          invariant hex == text[old(position) + 1..position + 1]
        {
          var c := NextChar();
          if c.Err? {
            return Err(c.error);
          }
          hex := hex + [c.value];
        }
        if forall i :: 0 <= i < 4 ==> IsHexDigit(hex[i]) {
          return Ok(Hex4Value(hex));
        }
        return Err(Encoding);
      }
      return Err(Encoding);
    }

    /** `scan_string`, with the cursor on the opening quote; leaves the cursor just
        past the closing quote. */
    method ScanString() returns (r: Result<JString>)
      requires Valid() && currentChar == Some('"')
      modifies this
      ensures Valid()
      ensures r == Payload(LexerSpec.ScanString(text, old(position)))
      ensures r.Ok? ==> position == LexerSpec.ScanString(text, old(position)).value.1
    {
      // repaired: the accumulator is a sequence (the source starts it as a str
      // and then calls `.append` on it)
      var result: JString := [];
      Advance();
      while currentChar != Some('"')
        invariant Valid()
        invariant ScanStringFrom(text, position, result) == LexerSpec.ScanString(text, old(position))
        decreases |text| - position
      {
        if currentChar.None? {
          return Err(Syntax(Some(position), None));
        }
        if currentChar == Some('\\') {
          Advance();
          var u := ParseEscapeSequence();
          if u.Err? {
            return Err(u.error);
          }
          result := result + [u.value];
          // repaired: move past the escape's last character
          Advance();
        } else {
          result := result + [currentChar.value as int];
          Advance();
        }
      }
      Advance();
      return Ok(result);
    }

    /** Advances over a run of ASCII digits. */
    method SkipDigits()
      requires Valid()
      modifies this
      ensures Valid()
      ensures position == Span(text, old(position), Digit)
    {
      while currentChar.Some? && IsDigit(currentChar.value)
        invariant Valid() && old(position) <= position
        invariant Span(text, position, Digit) == Span(text, old(position), Digit)
        decreases |text| - position
      {
        Advance();
      }
    }

    /** The fraction part of `scan_number`: a '.' must be followed by a digit. */
    method ScanFraction() returns (failure: Option<Error>)
      requires Valid()
      modifies this
      ensures Valid()
      ensures failure.None? <==> FractionEnd(text, old(position)).Ok?
      ensures failure.Some? ==> failure.value == FractionEnd(text, old(position)).error
      ensures failure.None? ==> position == FractionEnd(text, old(position)).value
    {
      if currentChar == Some('.') {
        Advance();
        if !(currentChar.Some? && IsDigit(currentChar.value)) {
          return Some(Syntax(Some(position), None));
        }
        SkipDigits();
      }
      return None;
    }

    /** The exponent part of `scan_number`: 'e' or 'E', an optional sign, and a
        digit required. */
    method ScanExponent() returns (failure: Option<Error>)
      requires Valid()
      modifies this
      ensures Valid()
      ensures failure.None? <==> ExponentEnd(text, old(position)).Ok?
      ensures failure.Some? ==> failure.value == ExponentEnd(text, old(position)).error
      ensures failure.None? ==> position == ExponentEnd(text, old(position)).value
    {
      if currentChar == Some('e') || currentChar == Some('E') {
        Advance();
        if currentChar == Some('+') || currentChar == Some('-') {
          Advance();
        }
        if !(currentChar.Some? && IsDigit(currentChar.value)) {
          return Some(Syntax(Some(position), None));
        }
        SkipDigits();
      }
      return None;
    }

    /** `scan_number`: Ok(None), with the cursor unmoved, when the current
        character does not start a number. */
    method ScanNumber() returns (r: Result<Option<Number>>)
      requires Valid()
      modifies this
      ensures Valid()
      ensures r == Payload(LexerSpec.ScanNumber(text, old(position)))
      ensures r.Ok? ==> position == LexerSpec.ScanNumber(text, old(position)).value.1
    {
      var startPos := position;
      if currentChar == Some('-') {
        Advance();
      }
      if currentChar == Some('0') {
        Advance();
      } else if currentChar.Some? && IsDigit(currentChar.value) {
        SkipDigits();
      } else {
        // repaired: this branch belongs to the if/elif on the integer part
        // (in the source it is the `else` of the `while`)
        if position != startPos {
          // a '-' without a digit: reported here, where the digit was expected
          return Err(Syntax(Some(position), None));
        }
        return Ok(None);
      }
      assert SignEnd(text, startPos) < |text| && IntegerEnd(text, SignEnd(text, startPos)) == position;
      r := FinishNumber(startPos);
    }

    /** The fraction and exponent parts of `scan_number` and the conversion of
        the lexeme `text[startPos..position]`. */
    method FinishNumber(startPos: nat) returns (r: Result<Option<Number>>)
      requires Valid() && startPos <= |text| && SignEnd(text, startPos) < |text| && IsDigit(text[SignEnd(text, startPos)])
      requires position == IntegerEnd(text, SignEnd(text, startPos))
      modifies this
      ensures Valid()
      ensures r == Payload(LexerSpec.ScanNumber(text, startPos))
      ensures r.Ok? ==> position == LexerSpec.ScanNumber(text, startPos).value.1
    {
      ghost var integerEnd := position;
      var failure := ScanFraction();
      if failure.Some? {
        return Err(failure.value);
      }
      failure := ScanExponent();
      if failure.Some? {
        return Err(failure.value);
      }
      var numberStr := text[startPos..position];
      assert position == NumberEnd(text, integerEnd).value;
      if position > integerEnd {
        MarksRead(text, startPos, integerEnd);
      }
      if HasFractionOrExponent(numberStr) {
        return Ok(Some(Fractional(numberStr)));
      }
      return Ok(Some(Integer(IntValue(numberStr))));
    }

    /** `get_next_token` (repaired: a method of the class, not a function nested
        in `scan_number`; `current_chat` and `isaplha` read as `current_char` and
        `isalpha`). */
    method GetNextToken() returns (r: Result<Option<Token>>)
      requires Valid()
      modifies this
      ensures Valid()
      ensures r == Payload(NextToken(text, old(position)))
      ensures r.Ok? ==> position == NextToken(text, old(position)).value.1
    {
      SkipWhitespace();
      if currentChar.None? {
        return Ok(None);
      }
      if currentChar == Some('"') {
        var s := ScanString();
        if s.Err? {
          return Err(s.error);
        }
        return Ok(Some(TString(s.value)));
      }
      var number := ScanNumber();
      if number.Err? {
        return Err(number.error);
      }
      if number.value.Some? {
        return Ok(Some(TNumber(number.value.value)));
      }
      if IsAlpha(currentChar.value) {
        var startPos := position;
        while currentChar.Some? && IsAlpha(currentChar.value)
          invariant Valid() && startPos <= position
          invariant Span(text, position, Alpha) == Span(text, startPos, Alpha)
          decreases |text| - position
        {
          Advance();
        }
        var keyword := text[startPos..position];
        if keyword == "true" {
          return Ok(Some(TTrue));
        } else if keyword == "false" {
          return Ok(Some(TFalse));
        } else if keyword == "null" {
          return Ok(Some(TNull));
        }
        return Err(Syntax(Some(startPos), None));
      }
      var ch := currentChar.value;
      Advance();
      var kind := PunctOf(ch);
      if kind.Some? {
        return Ok(Some(TPunct(kind.value, ch)));
      }
      return Err(Syntax(Some(position - 1), Some(ch)));
    }
  }
}
