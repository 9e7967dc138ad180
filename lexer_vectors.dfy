/** The cases of tests/test_lexer.py, stated on the reference scanner. */
module LexerVectors {
  import opened Exceptions
  import opened Values
  import opened LexerSpec
  import opened NumberGrammar
  import opened LexerProps

  /** A quoted run of plain characters is one string token of those characters. */
  lemma {:induction false} QuotedPlain(h: string)
    requires forall i :: 0 <= i < |h| ==> Plain(h[i])
    ensures NextToken("\"" + h + "\"", 0) == Ok((Some(TString(Codes(h))), |h| + 2))
  {
    var t := "\"" + h + "\"";
    assert TokenStart(t, 0) == 0;
    forall i | 0 < i < |h| + 1
      ensures Plain(t[i])
    {
      assert t[i] == h[i - 1];
    }
    PlainString(t, 0, |h| + 1);
    assert t[1..|h| + 1] == h;
  }

  /** `"hello world"` */
  lemma {:induction false} StringVector()
    ensures NextToken("\"" + "hello world" + "\"", 0) == Ok((Some(TString(Codes("hello world"))), 13))
  {
    QuotedPlain("hello world");
  }

  lemma {:induction false} TrueVector()
    ensures NextToken("true", 0) == Ok((Some(TTrue), 4))
  {
    SpanExact("true", 0, 4, Alpha);
    assert "true"[0..4] == "true";
  }

  lemma {:induction false} FalseVector()
    ensures NextToken("false", 0) == Ok((Some(TFalse), 5))
  {
    SpanExact("false", 0, 5, Alpha);
    assert "false"[0..5] == "false";
  }

  lemma {:induction false} NullVector()
    ensures NextToken("null", 0) == Ok((Some(TNull), 4))
  {
    SpanExact("null", 0, 4, Alpha);
    assert "null"[0..4] == "null";
  }

  const Punctuation: string := "{}[]:,"

  /** `{}[]:,` is six punctuation tokens, each one character long, then the end. */
  lemma {:induction false} PunctuationVector()
    ensures NextToken(Punctuation, 0) == Ok((Some(TPunct(LBrace, '{')), 1))
    ensures NextToken(Punctuation, 1) == Ok((Some(TPunct(RBrace, '}')), 2))
    ensures NextToken(Punctuation, 2) == Ok((Some(TPunct(LBracket, '[')), 3))
    ensures NextToken(Punctuation, 3) == Ok((Some(TPunct(RBracket, ']')), 4))
    ensures NextToken(Punctuation, 4) == Ok((Some(TPunct(Colon, ':')), 5))
    ensures NextToken(Punctuation, 5) == Ok((Some(TPunct(Comma, ',')), 6))
    ensures NextToken(Punctuation, 6) == Ok((None, 6))
  {
    OpeningPunctuation();
    ClosingPunctuation();
  }

  lemma {:induction false} OpeningPunctuation()
    ensures NextToken(Punctuation, 0) == Ok((Some(TPunct(LBrace, '{')), 1))
    ensures NextToken(Punctuation, 1) == Ok((Some(TPunct(RBrace, '}')), 2))
    ensures NextToken(Punctuation, 2) == Ok((Some(TPunct(LBracket, '[')), 3))
  {
    PunctAt(Punctuation, 0);
    PunctAt(Punctuation, 1);
    PunctAt(Punctuation, 2);
  }

  lemma {:induction false} ClosingPunctuation()
    ensures NextToken(Punctuation, 3) == Ok((Some(TPunct(RBracket, ']')), 4))
    ensures NextToken(Punctuation, 4) == Ok((Some(TPunct(Colon, ':')), 5))
    ensures NextToken(Punctuation, 5) == Ok((Some(TPunct(Comma, ',')), 6))
    ensures NextToken(Punctuation, 6) == Ok((None, 6))
  {
    PunctAt(Punctuation, 3);
    PunctAt(Punctuation, 4);
    PunctAt(Punctuation, 5);
  }

  const Spaced: string := "  \n\t{ \"key\" : 123 }  "

  /** The tokens of `  \n\t{ "key" : 123 }  `: LBRACE, STRING, COLON, NUMBER,
      RBRACE, and then None. */
  lemma {:induction false} WhitespaceVector()
    ensures NextToken(Spaced, 0) == Ok((Some(TPunct(LBrace, '{')), 5))
    ensures NextToken(Spaced, 5) == Ok((Some(TString(Codes("key"))), 11))
    ensures NextToken(Spaced, 11) == Ok((Some(TPunct(Colon, ':')), 13))
    ensures NextToken(Spaced, 13) == Ok((Some(TNumber(Integer(123))), 17))
    ensures NextToken(Spaced, 17) == Ok((Some(TPunct(RBrace, '}')), 19))
    ensures NextToken(Spaced, 19) == Ok((None, 21))
  {
    SpacedBraces();
    SpacedString();
    SpacedColon();
    SpacedNumber();
  }

  lemma {:induction false} SpacedBraces()
    ensures NextToken(Spaced, 0) == Ok((Some(TPunct(LBrace, '{')), 5))
    ensures NextToken(Spaced, 17) == Ok((Some(TPunct(RBrace, '}')), 19))
    ensures NextToken(Spaced, 19) == Ok((None, 21))
  {
    assert TokenStart(Spaced, 0) == 4;
    NextIsPunct(Spaced, 0);
    assert TokenStart(Spaced, 17) == 18;
    NextIsPunct(Spaced, 17);
  }

  lemma {:induction false} SpacedColon()
    ensures NextToken(Spaced, 11) == Ok((Some(TPunct(Colon, ':')), 13))
  {
    assert TokenStart(Spaced, 11) == 12;
    NextIsPunct(Spaced, 11);
  }

  lemma {:induction false} SpacedString()
    ensures NextToken(Spaced, 5) == Ok((Some(TString(Codes("key"))), 11))
  {
    assert TokenStart(Spaced, 5) == 6;
    PlainString(Spaced, 6, 10);
    assert Spaced[7..10] == "key";
  }

  lemma {:induction false} SpacedNumber()
    ensures NextToken(Spaced, 13) == Ok((Some(TNumber(Integer(123))), 17))
  {
    assert TokenStart(Spaced, 13) == 14;
    assert DecimalText(123) == "123";
    assert Spaced[14..17] == "123";
    DecimalScans(123, Spaced, 14);
  }

  /** One `\u` escape whose four hexadecimal digits have the value `v`. */
  lemma {:induction false} EscapeAt(text: string, pos: nat, acc: JString, v: CodePoint)
    requires pos + 5 < |text| && text[pos] == '\\' && text[pos + 1] == 'u'
    requires IsHexDigit(text[pos + 2]) && IsHexDigit(text[pos + 3]) && IsHexDigit(text[pos + 4]) && IsHexDigit(text[pos + 5])
    requires 0x1000 * HexDigitValue(text[pos + 2]) + 0x100 * HexDigitValue(text[pos + 3])
             + 0x10 * HexDigitValue(text[pos + 4]) + HexDigitValue(text[pos + 5]) == v
    ensures ScanStringFrom(text, pos, acc) == ScanStringFrom(text, pos + 6, acc + [v])
  {
    UnicodeEscape(text, pos, acc);
  }

  /** An escape `e` in front of a string tail `rest` that reads to `acc + [v] + ...`. */
  lemma {:induction false} EscapeThen(e: string, rest: string, acc: JString, v: CodePoint, s: JString, q: nat)
    requires |e| == 6 && e[0] == '\\' && e[1] == 'u'
    requires IsHexDigit(e[2]) && IsHexDigit(e[3]) && IsHexDigit(e[4]) && IsHexDigit(e[5])
    requires 0x1000 * HexDigitValue(e[2]) + 0x100 * HexDigitValue(e[3])
             + 0x10 * HexDigitValue(e[4]) + HexDigitValue(e[5]) == v
    requires ScanStringFrom(rest, 0, acc + [v]) == Ok((s, q))
    ensures ScanStringFrom(e + rest, 0, acc) == Ok((s, 6 + q))
  {
    EscapeAt(e + rest, 0, acc, v);
    ScanStringShift(e, rest, 0, acc + [v], s, q);
  }

  const Quote: string := "\""
  const U041F: string := "\\u041f"
  const U0440: string := "\\u0440"
  const U0438: string := "\\u0438"
  const U0432: string := "\\u0432"
  const U0435: string := "\\u0435"
  const U0442: string := "\\u0442"

  /** `"\u041f\u0440\u0438\u0432\u0435\u0442"` */
  const Privet: string := Quote + (U041F + (U0440 + (U0438 + (U0432 + (U0435 + (U0442 + Quote))))))

  const Word: JString := [0x041F, 0x0440, 0x0438, 0x0432, 0x0435, 0x0442]

  /** Six `\u` escapes decode to the six Cyrillic letters of "Привет". */
  lemma {:induction false} UnicodeVector()
    ensures ScanString(Privet, 0) == Ok((Word, 38))
  {
    PrivetTail();
    PrivetMiddle();
    PrivetHead();
    ScanStringShift(Quote, U041F + (U0440 + (U0438 + (U0432 + (U0435 + (U0442 + Quote))))), 0, [], Word, 37);
  }

  lemma {:induction false} PrivetTail()
    ensures ScanStringFrom(U0435 + (U0442 + Quote), 0, Word[..4]) == Ok((Word, 13))
  {
    assert ScanStringFrom(Quote, 0, Word) == Ok((Word, 1));
    assert Word[..5] + [0x0442] == Word;
    EscapeThen(U0442, Quote, Word[..5], 0x0442, Word, 1);
    assert Word[..4] + [0x0435] == Word[..5];
    EscapeThen(U0435, U0442 + Quote, Word[..4], 0x0435, Word, 7);
  }

  lemma {:induction false} PrivetMiddle()
    ensures ScanStringFrom(U0438 + (U0432 + (U0435 + (U0442 + Quote))), 0, Word[..2]) == Ok((Word, 25))
  {
    PrivetTail();
    assert Word[..3] + [0x0432] == Word[..4];
    EscapeThen(U0432, U0435 + (U0442 + Quote), Word[..3], 0x0432, Word, 13);
    assert Word[..2] + [0x0438] == Word[..3];
    EscapeThen(U0438, U0432 + (U0435 + (U0442 + Quote)), Word[..2], 0x0438, Word, 19);
  }

  lemma {:induction false} PrivetHead()
    ensures ScanStringFrom(U041F + (U0440 + (U0438 + (U0432 + (U0435 + (U0442 + Quote))))), 0, []) == Ok((Word, 37))
  {
    PrivetMiddle();
    assert Word[..1] + [0x0440] == Word[..2];
    EscapeThen(U0440, U0438 + (U0432 + (U0435 + (U0442 + Quote))), Word[..1], 0x0440, Word, 25);
    assert [] + [0x041F] == Word[..1];
    EscapeThen(U041F, U0440 + (U0438 + (U0432 + (U0435 + (U0442 + Quote)))), [], 0x041F, Word, 31);
  }

  /** `@invalid`: '@' starts no token. */
  lemma {:induction false} InvalidVector()
    ensures NextToken("@invalid", 0) == Err(Syntax(Some(0), Some('@')))
  {
    NextIsInvalid("@invalid", 0);
  }
}
