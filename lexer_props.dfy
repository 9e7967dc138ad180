/** What the scanner of src/lexer.py promises, stated on the reference functions
    of module LexerSpec (and so, through the contracts of module Lexer, on the
    methods of `JSONLexer`): how string contents and escapes decode, which
    token each kind of character starts, and the scanner's test vectors. */
module LexerProps {
  import opened Exceptions
  import opened Values
  import opened LexerSpec
  import opened NumberGrammar

  // --------------------------------------------------------------- strings

  /** Neither a closing quote nor the start of an escape. */
  predicate Plain(c: char) { c != '"' && c != '\\' }

  /** A run of plain characters is copied into the result unchanged, one code
      point per character, whatever the character. */
  lemma {:induction false} PlainRun(text: string, pos: nat, q: nat, acc: JString)
    requires pos <= q <= |text| && forall i :: pos <= i < q ==> Plain(text[i])
    ensures ScanStringFrom(text, pos, acc) == ScanStringFrom(text, q, acc + Codes(text[pos..q]))
    decreases q - pos
  {
    if pos < q {
      PlainRun(text, pos + 1, q, acc + [text[pos] as int]);
      CodesStep(text, pos, q, acc);
    } else {
      assert acc + Codes(text[pos..q]) == acc;
    }
  }

  lemma {:induction false} CodesStep(text: string, pos: nat, q: nat, acc: JString)
    requires pos < q <= |text|
    ensures acc + [text[pos] as int] + Codes(text[pos + 1..q]) == acc + Codes(text[pos..q])
  {
    assert text[pos..q][1..] == text[pos + 1..q];
  }

  /** A string without escapes is its characters between the quotes, and the
      cursor ends just past the closing quote. */
  lemma {:induction false} PlainString(text: string, pos: nat, q: nat)
    requires pos < q < |text| && text[pos] == '"' && text[q] == '"'
    requires forall i :: pos < i < q ==> Plain(text[i])
    ensures ScanString(text, pos) == Ok((Codes(text[pos + 1..q]), q + 1))
  {
    PlainRun(text, pos + 1, q, []);
    assert [] + Codes(text[pos + 1..q]) == Codes(text[pos + 1..q]);
  }

  /** Text that ends before a closing quote is a SyntaxError at the end of the text. */
  lemma {:induction false} Unterminated(text: string, pos: nat)
    requires pos < |text| && text[pos] == '"'
    requires forall i :: pos < i < |text| ==> Plain(text[i])
    ensures ScanString(text, pos) == Err(Syntax(Some(|text|), None))
  {
    PlainRun(text, pos + 1, |text|, []);
  }

  /** Without any '"' after the opening quote there is no string, escapes or not. */
  lemma {:induction false} NoClosingQuote(text: string, pos: nat)
    requires pos < |text| && forall i :: pos < i < |text| ==> text[i] != '"'
    ensures ScanString(text, pos).Err?
  {
  }

  /** A backslash and one of `" \ / b f n r t` stand for the character of the
      escape table, and scanning goes on after the two characters. */
  lemma {:induction false} SingleEscape(text: string, pos: nat, acc: JString)
    requires pos + 1 < |text| && text[pos] == '\\' && EscapeTable(text[pos + 1]).Some?
    ensures ScanStringFrom(text, pos, acc) == ScanStringFrom(text, pos + 2, acc + [EscapeTable(text[pos + 1]).value])
  {
  }

  /** `\u` and four hexadecimal digits stand for the code unit with that value,
      and scanning goes on after the six characters. */
  lemma {:induction false} UnicodeEscape(text: string, pos: nat, acc: JString)
    requires pos + 5 < |text| && text[pos] == '\\' && text[pos + 1] == 'u'
    requires forall i :: pos + 2 <= i < pos + 6 ==> IsHexDigit(text[i])
    ensures ScanStringFrom(text, pos, acc) == ScanStringFrom(text, pos + 6, acc + [Hex4Value(text[pos + 2..pos + 6])])
  {
  }

  /** A backslash followed by anything else, or by nothing, is an EncodingError. */
  lemma {:induction false} InvalidEscape(text: string, pos: nat, acc: JString)
    requires pos < |text| && text[pos] == '\\'
    requires pos + 1 == |text| || (EscapeTable(text[pos + 1]).None? && text[pos + 1] != 'u')
    ensures ScanStringFrom(text, pos, acc) == Err(Encoding)
  {
  }

  /** `\u` followed by four characters that are not all hexadecimal digits is an
      EncodingError. */
  lemma {:induction false} BadHexEscape(text: string, pos: nat, acc: JString, k: nat)
    requires pos + 5 < |text| && text[pos] == '\\' && text[pos + 1] == 'u'
    requires pos + 2 <= k < pos + 6 && !IsHexDigit(text[k])
    ensures ScanStringFrom(text, pos, acc) == Err(Encoding)
  {
  }

  /** Text that ends within the four digits of `\u` is a SyntaxError at the end
      of the text. */
  lemma {:induction false} ShortUnicodeEscape(text: string, pos: nat, acc: JString)
    requires pos + 1 < |text| <= pos + 5 && text[pos] == '\\' && text[pos + 1] == 'u'
    ensures ScanStringFrom(text, pos, acc) == Err(Syntax(Some(|text|), None))
  {
  }

  /** An escape reads the same in front of any prefix. */
  lemma {:induction false} EscapeShift(x: string, y: string, p: nat)
    requires p <= |y| && Escape(y, p).Ok?
    ensures Escape(x + y, |x| + p) == Ok((Escape(y, p).value.0, |x| + Escape(y, p).value.1))
  {
    var t := x + y;
    assert t[|x| + p] == y[p];
    if EscapeTable(y[p]).None? {
      forall i | p < i <= p + 4
        ensures t[|x| + i] == y[i]
      {
      }
      assert t[|x| + p + 1..|x| + p + 5] == y[p + 1..p + 5];
    }
  }

  /** `scan_string` reads only the text from its cursor on: in front of any
      prefix, the same content, with the cursor moved by the prefix's length. */
  lemma {:induction false} ScanStringShift(x: string, y: string, p: nat, acc: JString, s: JString, q: nat)
    requires p <= |y| && ScanStringFrom(y, p, acc) == Ok((s, q))
    ensures ScanStringFrom(x + y, |x| + p, acc) == Ok((s, |x| + q))
    decreases |y| - p, 1
  {
    assert p < |y|;
    if y[p] == '"' {
      assert (x + y)[|x| + p] == y[p];
    } else if y[p] == '\\' {
      EscapeStepShift(x, y, p, acc, s, q);
    } else {
      PlainStepShift(x, y, p, acc, s, q);
    }
  }

  lemma {:induction false} EscapeStepShift(x: string, y: string, p: nat, acc: JString, s: JString, q: nat)
    requires p < |y| && y[p] == '\\' && ScanStringFrom(y, p, acc) == Ok((s, q))
    ensures ScanStringFrom(x + y, |x| + p, acc) == Ok((s, |x| + q))
    decreases |y| - p, 0
  {
    var (u, last) := Escape(y, p + 1).value;
    assert ScanStringFrom(y, p, acc) == ScanStringFrom(y, last + 1, acc + [u]);
    EscapeStepInFront(x, y, p, acc);
    ScanStringShift(x, y, last + 1, acc + [u], s, q);
  }

  lemma {:induction false} EscapeStepInFront(x: string, y: string, p: nat, acc: JString)
    requires p + 1 < |y| && y[p] == '\\' && Escape(y, p + 1).Ok?
    ensures ScanStringFrom(x + y, |x| + p, acc) ==
            ScanStringFrom(x + y, |x| + (Escape(y, p + 1).value.1 + 1), acc + [Escape(y, p + 1).value.0])
  {
    assert (x + y)[|x| + p] == y[p];
    EscapeShift(x, y, p + 1);
  }

  lemma {:induction false} PlainStepShift(x: string, y: string, p: nat, acc: JString, s: JString, q: nat)
    requires p < |y| && y[p] != '"' && y[p] != '\\' && ScanStringFrom(y, p, acc) == Ok((s, q))
    ensures ScanStringFrom(x + y, |x| + p, acc) == Ok((s, |x| + q))
    decreases |y| - p, 0
  {
    var c := y[p] as int;
    assert ScanStringFrom(y, p, acc) == ScanStringFrom(y, p + 1, acc + [c]);
    assert (x + y)[|x| + p] == y[p];
    assert ScanStringFrom(x + y, |x| + p, acc) == ScanStringFrom(x + y, |x| + (p + 1), acc + [c]);
    ScanStringShift(x, y, p + 1, acc + [c], s, q);
  }

  // ---------------------------------------------------------------- tokens

  /** The first character of the next token: after the whitespace at `pos`. */
  function TokenStart(text: string, pos: nat): (r: nat)
    requires pos <= |text|
    ensures pos <= r <= |text|
  {
    Span(text, pos, Whitespace)
  }

  /** A quote starts a string token, read by `scan_string`. */
  lemma {:induction false} NextIsString(text: string, pos: nat)
    requires pos <= |text| && TokenStart(text, pos) < |text| && text[TokenStart(text, pos)] == '"'
    ensures var p := TokenStart(text, pos);
            NextToken(text, pos) == match ScanString(text, p)
                                    case Ok((s, q)) => Ok((Some(TString(s)), q))
                                    case Err(e) => Err(e)
  {
  }

  /** A '-' or a digit starts a number token, read by `scan_number`. */
  lemma {:induction false} NextIsNumber(text: string, pos: nat)
    requires pos <= |text| && TokenStart(text, pos) < |text|
    requires var c := text[TokenStart(text, pos)]; c == '-' || IsDigit(c)
    ensures var p := TokenStart(text, pos);
            ScanNumber(text, p).Ok? ==>
              ScanNumber(text, p).value.0.Some? &&
              NextToken(text, pos) == Ok((Some(TNumber(ScanNumber(text, p).value.0.value)), ScanNumber(text, p).value.1))
    ensures var p := TokenStart(text, pos);
            ScanNumber(text, p).Err? ==> NextToken(text, pos) == Err(ScanNumber(text, p).error)
  {
  }

  /** Each of `{ } [ ] , :` is a token of its kind carrying the character. */
  lemma {:induction false} NextIsPunct(text: string, pos: nat)
    requires pos <= |text| && TokenStart(text, pos) < |text| && text[TokenStart(text, pos)] in "{}[],:"
    ensures var p := TokenStart(text, pos);
            NextToken(text, pos) == Ok((Some(TPunct(PunctOf(text[p]).value, text[p])), p + 1))
  {
  }

  /** A punctuation character under the cursor is its token. */
  lemma {:induction false} PunctAt(text: string, p: nat)
    requires p < |text| && text[p] in "{}[],:"
    ensures NextToken(text, p) == Ok((Some(TPunct(PunctOf(text[p]).value, text[p])), p + 1))
  {
    assert TokenStart(text, p) == p;
    NextIsPunct(text, p);
  }

  /** Whitespace before a token is skipped: the token is the same from the
      character after it. */
  lemma {:induction false} SpaceThen(text: string, p: nat)
    requires p < |text| && IsWhitespace(text[p])
    ensures NextToken(text, p) == NextToken(text, p + 1)
  {
    assert TokenStart(text, p) == TokenStart(text, p + 1);
  }

  /** The number `scan_number` reads under the cursor is the token. */
  lemma {:induction false} NumberAt(text: string, p: nat)
    requires p < |text| && (text[p] == '-' || IsDigit(text[p]))
    requires ScanNumber(text, p).Ok?
    ensures ScanNumber(text, p).value.0.Some?
    ensures NextToken(text, p) == Ok((Some(TNumber(ScanNumber(text, p).value.0.value)), ScanNumber(text, p).value.1))
  {
    assert TokenStart(text, p) == p;
    NextIsNumber(text, p);
  }

  /** `true`, `false` or `null` under the cursor, followed by something other
      than a letter, is its token. */
  lemma {:induction false} KeywordAt(text: string, p: nat, w: string)
    requires w == "true" || w == "false" || w == "null"
    requires p + |w| <= |text| && text[p..p + |w|] == w
    requires p + |w| == |text| || !IsAlpha(text[p + |w|])
    ensures NextToken(text, p) == Ok((Some(if w == "true" then TTrue else if w == "false" then TFalse else TNull), p + |w|))
  {
    forall i | p <= i < p + |w|
      ensures IsAlpha(text[i])
    {
      assert text[i] == w[i - p];
    }
    assert text[p] == w[0];
    SpanExact(text, p, p + |w|, Alpha);
    assert TokenStart(text, p) == p;
    NextIsKeyword(text, p);
  }

  /** A maximal run of letters is `true`, `false` or `null`; any other run is a
      SyntaxError at its first letter. */
  lemma {:induction false} NextIsKeyword(text: string, pos: nat)
    requires pos <= |text| && TokenStart(text, pos) < |text| && IsAlpha(text[TokenStart(text, pos)])
    ensures var p := TokenStart(text, pos);
            var q := Span(text, p, Alpha);
            NextToken(text, pos) ==
              if text[p..q] == "true" then Ok((Some(TTrue), q))
              else if text[p..q] == "false" then Ok((Some(TFalse), q))
              else if text[p..q] == "null" then Ok((Some(TNull), q))
              else Err(Syntax(Some(p), None))
  {
  }

  /** Any other character is a SyntaxError at its position, naming it. */
  lemma {:induction false} NextIsInvalid(text: string, pos: nat)
    requires pos <= |text| && TokenStart(text, pos) < |text|
    requires var c := text[TokenStart(text, pos)];
             c != '"' && c != '-' && !IsDigit(c) && !IsAlpha(c) && !(c in "{}[],:")
    ensures var p := TokenStart(text, pos);
            NextToken(text, pos) == Err(Syntax(Some(p), Some(text[p])))
  {
  }

  /** A token yields to nothing but the end of the text: None exactly when only
      whitespace is left, and otherwise the cursor moves forward. */
  lemma {:induction false} TokensAdvance(text: string, pos: nat)
    requires pos <= |text|
    ensures NextToken(text, pos).Ok? && NextToken(text, pos).value.0.None? <==>
            forall i :: pos <= i < |text| ==> IsWhitespace(text[i])
    ensures NextToken(text, pos).Ok? && NextToken(text, pos).value.0.Some? ==> NextToken(text, pos).value.1 > pos
  {
    var p := Span(text, pos, Whitespace);
    if p < |text| {
      assert !IsWhitespace(text[p]);
    }
  }
}
