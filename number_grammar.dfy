/** Properties of the number scanner (`scan_number` of src/lexer.py) stated on
    the text: the shape of every lexeme it accepts, the inputs it rejects,
    that what it reads depends only on the lexeme and the character after it,
    that it reads exactly the lexemes of the number grammar of section 6 of
    RFC 8259 (stated here without the scanner), and that the decimal text of
    an integer reads back as that integer. */
module NumberGrammar {
  import opened Exceptions
  import opened LexerSpec

  /** Nothing at `p` could continue a number: the end of the text, or a
      character other than a digit, '.', 'e' and 'E'. */
  predicate Delimited(text: string, p: nat)
  {
    p == |text| || (p < |text| && !IsDigit(text[p]) && text[p] != '.' && text[p] != 'e' && text[p] != 'E')
  }

  // ------------------------------------------------------- what is accepted

  /** A number whose parts end at `q` reads as the lexeme up to `q`. */
  lemma {:induction false} ScanEnds(text: string, pos: nat, q: nat)
    requires pos <= |text| && SignEnd(text, pos) < |text| && IsDigit(text[SignEnd(text, pos)])
    requires NumberEnd(text, IntegerEnd(text, SignEnd(text, pos))) == Ok(q)
    ensures NumberExtent(text, pos) == Ok(Some(q))
  {
  }

  /** `scan_number` once its integer part is known to end at `b`, the fraction
      at `c` and the exponent at `d`. */
  lemma {:induction false} ScanOk(text: string, pos: nat, b: nat, c: nat, d: nat)
    requires pos <= |text| && SignEnd(text, pos) < |text| && IsDigit(text[SignEnd(text, pos)])
    requires IntegerEnd(text, SignEnd(text, pos)) == b
    requires FractionEnd(text, b) == Ok(c) && ExponentEnd(text, c) == Ok(d)
    ensures pos < b <= c <= d <= |text|
    ensures d > b ==> ScanNumber(text, pos) == Ok((Some(Fractional(text[pos..d])), d))
    ensures d == b ==> c == b && ScanNumber(text, pos) == Ok((Some(Integer(IntValue(text[pos..b]))), b))
  {
    ScanEnds(text, pos, d);
    var lexeme := text[pos..d];
    if c > b {
      MarkAt(lexeme, b - pos);
    } else if d > c {
      MarkAt(lexeme, c - pos);
    } else {
      NoMark(lexeme);
    }
  }

  /** Where the exponent digits start and that they run to the end of the exponent. */
  lemma {:induction false} ExponentDigits(text: string, c: nat)
    requires c <= |text| && ExponentEnd(text, c).Ok? && ExponentEnd(text, c).value > c
    ensures var d := ExponentEnd(text, c).value;
            c + 1 < d && (text[c] == 'e' || text[c] == 'E') &&
            var s := if text[c + 1] == '+' || text[c + 1] == '-' then c + 2 else c + 1;
            s < d && forall i :: s <= i < d ==> IsDigit(text[i])
  {
  }

  /** Every number `scan_number` reads is `-? int frac? exp?`: an optional minus
      sign from `pos` to `a`, an integer part from `a` to `b` with no leading
      zero, an optional fraction '.' digits from `b` to `c` and an optional
      exponent from `c` to the end, `e` or `E`, an optional sign and digits.  It
      is an `int` exactly when there is neither fraction nor exponent. */
  lemma {:induction false} ScanShape(text: string, pos: nat) returns (a: nat, b: nat, c: nat)
    requires pos <= |text| && ScanNumber(text, pos).Ok? && ScanNumber(text, pos).value.0.Some?
    ensures var q := ScanNumber(text, pos).value.1;
            pos < |text| && a == (if text[pos] == '-' then pos + 1 else pos) && a < b <= c <= q
    ensures forall i :: a <= i < b ==> IsDigit(text[i])
    ensures text[a] == '0' ==> b == a + 1
    ensures c > b ==> text[b] == '.' && b + 1 < c && forall i :: b < i < c ==> IsDigit(text[i])
    ensures var q := ScanNumber(text, pos).value.1;
            q > c ==> (c + 1 < q && (text[c] == 'e' || text[c] == 'E') &&
                       var s := if text[c + 1] == '+' || text[c + 1] == '-' then c + 2 else c + 1;
                       s < q && forall i :: s <= i < q ==> IsDigit(text[i]))
    ensures var q := ScanNumber(text, pos).value.1;
            q == b ==> forall i :: 0 < i < |text[pos..q]| ==> IsDigit(text[pos..q][i])
    ensures var (n, q) := ScanNumber(text, pos).value;
            n == Some(if q == b then Integer(IntValue(text[pos..q])) else Fractional(text[pos..q]))
  {
    a := SignEnd(text, pos);
    b := IntegerEnd(text, a);
    c := FractionEnd(text, b).value;
    var d := ExponentEnd(text, c).value;
    ScanOk(text, pos, b, c, d);
    if d > c {
      ExponentDigits(text, c);
    }
    if d == b {
      forall i | 0 < i < |text[pos..d]|
        ensures IsDigit(text[pos..d][i])
      {
        assert text[pos..d][i] == text[pos + i];
      }
    }
  }

  // ----------------------------------------------------------- what is not

  /** A '-' that no digit follows is a SyntaxError at the character after it. */
  lemma {:induction false} LoneMinus(text: string, pos: nat)
    requires pos < |text| && text[pos] == '-' && !(pos + 1 < |text| && IsDigit(text[pos + 1]))
    ensures ScanNumber(text, pos) == Err(Syntax(Some(pos + 1), None))
  {
  }

  /** A '.' after the integer part that no digit follows is a SyntaxError at
      the character after it. */
  lemma {:induction false} FractionNeedsDigit(text: string, pos: nat)
    requires pos <= |text| && SignEnd(text, pos) < |text| && IsDigit(text[SignEnd(text, pos)])
    requires var b := IntegerEnd(text, SignEnd(text, pos));
             CharAt(text, b) == Some('.') && !(b + 1 < |text| && IsDigit(text[b + 1]))
    ensures ScanNumber(text, pos) == Err(Syntax(Some(IntegerEnd(text, SignEnd(text, pos)) + 1), None))
  {
  }

  /** An exponent marker after the fraction, and its sign if there is one, have
      to be followed by a digit: otherwise a SyntaxError where it was expected. */
  lemma {:induction false} ExponentNeedsDigit(text: string, pos: nat, c: nat)
    requires pos <= |text| && SignEnd(text, pos) < |text| && IsDigit(text[SignEnd(text, pos)])
    requires FractionEnd(text, IntegerEnd(text, SignEnd(text, pos))) == Ok(c)
    requires CharAt(text, c) == Some('e') || CharAt(text, c) == Some('E')
    requires var s := if CharAt(text, c + 1) == Some('+') || CharAt(text, c + 1) == Some('-') then c + 2 else c + 1;
             !(s < |text| && IsDigit(text[s]))
    ensures var s := if CharAt(text, c + 1) == Some('+') || CharAt(text, c + 1) == Some('-') then c + 2 else c + 1;
            ScanNumber(text, pos) == Err(Syntax(Some(s), None))
  {
  }

  // ------------------------------------------------------------- locality

  /** `t2`, shifted by `shift`, holds the characters of `t1` from `lo` to `hi`. */
  predicate Agree(t1: string, lo: nat, hi: nat, t2: string, shift: int)
  {
    lo <= hi <= |t1| && 0 <= lo + shift && hi + shift <= |t2| &&
    forall i {:trigger t1[i]} :: lo <= i < hi ==> t2[i + shift] == t1[i]
  }

  lemma {:induction false} SpanLocal(t1: string, lo: nat, hi: nat, t2: string, shift: int, k: CharClass)
    requires Agree(t1, lo, hi, t2, shift) && Span(t1, lo, k) <= hi
    requires Span(t1, lo, k) < hi || hi + shift == |t2| || !InClass(t2[hi + shift], k)
    ensures Span(t2, lo + shift, k) == Span(t1, lo, k) + shift
  {
    var e := Span(t1, lo, k);
    forall i | lo + shift <= i < e + shift
      ensures InClass(t2[i], k)
    {
      assert t2[i] == t1[i - shift];
    }
    if e < hi {
      assert t2[e + shift] == t1[e];
    }
    SpanExact(t2, lo + shift, e + shift, k);
  }

  lemma {:induction false} IntegerEndLocal(t1: string, a: nat, hi: nat, t2: string, shift: int)
    requires Agree(t1, a, hi, t2, shift) && a < |t1| && IsDigit(t1[a]) && IntegerEnd(t1, a) <= hi
    requires Delimited(t2, hi + shift)
    ensures a + shift < |t2| && t2[a + shift] == t1[a]
    ensures IntegerEnd(t2, a + shift) == IntegerEnd(t1, a) + shift
  {
    if t1[a] != '0' {
      SpanLocal(t1, a, hi, t2, shift, Digit);
    }
  }

  lemma {:induction false} FractionEndLocal(t1: string, b: nat, hi: nat, t2: string, shift: int)
    requires Agree(t1, b, hi, t2, shift) && FractionEnd(t1, b).Ok? && FractionEnd(t1, b).value <= hi
    requires Delimited(t2, hi + shift)
    ensures FractionEnd(t2, b + shift) == Ok(FractionEnd(t1, b).value + shift)
  {
    var c := FractionEnd(t1, b).value;
    if c > b {
      assert t2[b + shift] == t1[b] && t2[b + 1 + shift] == t1[b + 1];
      SpanLocal(t1, b + 1, hi, t2, shift, Digit);
    } else if b < hi {
      assert t2[b + shift] == t1[b];
    }
  }

  lemma {:induction false} ExponentEndLocal(t1: string, c: nat, hi: nat, t2: string, shift: int)
    requires Agree(t1, c, hi, t2, shift) && ExponentEnd(t1, c).Ok? && ExponentEnd(t1, c).value <= hi
    requires Delimited(t2, hi + shift)
    ensures ExponentEnd(t2, c + shift) == Ok(ExponentEnd(t1, c).value + shift)
  {
    var d := ExponentEnd(t1, c).value;
    if d > c {
      ExponentDigits(t1, c);
      var s := if t1[c + 1] == '+' || t1[c + 1] == '-' then c + 2 else c + 1;
      assert t2[c + shift] == t1[c] && t2[c + 1 + shift] == t1[c + 1] && t2[s + shift] == t1[s];
      SpanLocal(t1, s, hi, t2, shift, Digit);
    } else if c < hi {
      assert t2[c + shift] == t1[c];
    }
  }

  lemma {:induction false} NumberEndLocal(t1: string, b: nat, hi: nat, t2: string, shift: int)
    requires Agree(t1, b, hi, t2, shift) && NumberEnd(t1, b).Ok? && NumberEnd(t1, b).value == hi
    requires Delimited(t2, hi + shift)
    ensures NumberEnd(t2, b + shift) == Ok(hi + shift)
  {
    FractionEndLocal(t1, b, hi, t2, shift);
    ExponentEndLocal(t1, FractionEnd(t1, b).value, hi, t2, shift);
  }

  /** The parts of a number the scanner found. */
  lemma {:induction false} ExtentParts(text: string, pos: nat) returns (a: nat, b: nat)
    requires pos <= |text| && NumberExtent(text, pos).Ok? && NumberExtent(text, pos).value.Some?
    ensures a == SignEnd(text, pos) && a < |text| && IsDigit(text[a]) && b == IntegerEnd(text, a)
    ensures NumberEnd(text, b) == Ok(NumberExtent(text, pos).value.value)
  {
    a := SignEnd(text, pos);
    b := IntegerEnd(text, a);
  }

  /** The parts of a number, copied to `t2` at `p2`, end at the same offsets. */
  lemma {:induction false} PartsLocal(t1: string, p1: nat, a: nat, b: nat, q: nat, t2: string, p2: nat, a2: nat, b2: nat, q2: nat, shift: int)
    requires a == SignEnd(t1, p1) && a < |t1| && IsDigit(t1[a]) && b == IntegerEnd(t1, a) && NumberEnd(t1, b) == Ok(q)
    requires shift == p2 - p1 && Agree(t1, p1, q, t2, shift) && Delimited(t2, q2)
    requires a2 == a + shift && b2 == b + shift && q2 == q + shift
    ensures SignEnd(t2, p2) == a2 && a2 < |t2| && IsDigit(t2[a2])
    ensures IntegerEnd(t2, a2) == b2 && NumberEnd(t2, b2) == Ok(q2)
  {
    assert t2[p1 + shift] == t1[p1];
    IntegerEndLocal(t1, a, q, t2, shift);
    NumberEndLocal(t1, b, q, t2, shift);
  }

  /** Where a number ends depends only on its characters and the one after it. */
  lemma {:induction false} ExtentLocal(t1: string, p1: nat, q: nat, t2: string, p2: nat, q2: nat, shift: int)
    requires p1 <= |t1| && p2 <= |t2| && NumberExtent(t1, p1) == Ok(Some(q))
    requires shift == p2 - p1 && q2 == q + shift && Agree(t1, p1, q, t2, shift) && Delimited(t2, q2)
    ensures NumberExtent(t2, p2) == Ok(Some(q2))
  {
    var a, b := ExtentParts(t1, p1);
    var a2: nat, b2: nat := a + shift, b + shift;
    PartsLocal(t1, p1, a, b, q, t2, p2, a2, b2, q2, shift);
    ScanEnds(t2, p2, q2);
  }

  /** The lexeme of a number read from any text is, on its own, a whole number. */
  lemma {:induction false} ExtentAlone(text: string, pos: nat, q: nat)
    requires pos <= |text| && NumberExtent(text, pos) == Ok(Some(q))
    ensures NumberExtent(text[pos..q], 0) == Ok(Some(q - pos))
  {
    var lexeme := text[pos..q];
    var shift: int := -(pos as int);
    assert Agree(text, pos, q, lexeme, shift);
    ExtentLocal(text, pos, q, lexeme, 0, q - pos, shift);
  }

  lemma {:induction false} SliceAgree(text: string, pos: nat, s: string)
    requires pos + |s| <= |text| && text[pos..pos + |s|] == s
    ensures Agree(s, 0, |s|, text, pos)
  {
    forall i | 0 <= i < |s|
      ensures text[i + pos] == s[i]
    {
      assert s[i] == text[pos..pos + |s|][i];
    }
  }

  /** A whole number lexeme, written anywhere and followed by something that
      does not continue a number, is read up to its end and no further. */
  lemma {:induction false} ExtentEmbedded(lexeme: string, text: string, pos: nat)
    requires NumberExtent(lexeme, 0) == Ok(Some(|lexeme|))
    requires pos + |lexeme| <= |text| && text[pos..pos + |lexeme|] == lexeme
    requires Delimited(text, pos + |lexeme|)
    ensures NumberExtent(text, pos) == Ok(Some(pos + |lexeme|))
  {
    SliceAgree(text, pos, lexeme);
    ExtentLocal(lexeme, 0, |lexeme|, text, pos, pos + |lexeme|, pos);
  }

  // ------------------------------------------------------------- the grammar

  /** `s[lo..hi]` is a non-empty run of digits. */
  predicate DigitRun(s: string, lo: nat, hi: nat)
  {
    lo < hi <= |s| && forall i :: lo <= i < hi ==> IsDigit(s[i])
  }

  /** Where the integer part of `s` starts: after an optional minus sign. */
  function IntegerStart(s: string): nat
  {
    if |s| > 0 && s[0] == '-' then 1 else 0
  }

  /** `s` is `-? int frac? exp?` with the integer part ending at `b` and the
      fraction at `c`: the integer part is `0` or a digit run not starting
      with `0`, the fraction is empty or '.' and digits, and the exponent,
      from `c` to the end, is empty or `e`/`E`, an optional sign and digits. */
  predicate NumberParts(s: string, b: nat, c: nat)
  {
    var a := IntegerStart(s);
    b <= c <= |s| && DigitRun(s, a, b) && (s[a] == '0' ==> b == a + 1) &&
    (c == b || (s[b] == '.' && DigitRun(s, b + 1, c))) &&
    (c == |s| || ((s[c] == 'e' || s[c] == 'E') && c + 1 < |s| &&
                  DigitRun(s, if s[c + 1] == '+' || s[c + 1] == '-' then c + 2 else c + 1, |s|)))
  }

  /** A whole lexeme of the number grammar of section 6 of RFC 8259. */
  predicate NumberLexeme(s: string)
  {
    exists b: nat, c: nat :: b <= |s| && c <= |s| && NumberParts(s, b, c)
  }

  /** The exponent of a lexeme, from `c` on, is read to the end. */
  lemma {:induction false} ExponentOfParts(s: string, b: nat, c: nat)
    requires NumberParts(s, b, c)
    ensures ExponentEnd(s, c) == Ok(|s|)
  {
    if c < |s| {
      var e := if s[c + 1] == '+' || s[c + 1] == '-' then c + 2 else c + 1;
      SpanExact(s, e, |s|, Digit);
    }
  }

  /** The fraction of a lexeme, from `b` on, ends at `c`. */
  lemma {:induction false} FractionOfParts(s: string, b: nat, c: nat)
    requires NumberParts(s, b, c)
    ensures FractionEnd(s, b) == Ok(c)
  {
    if c > b {
      SpanExact(s, b + 1, c, Digit);
    }
  }

  /** The integer part of a lexeme ends at `b`. */
  lemma {:induction false} IntegerOfParts(s: string, b: nat, c: nat)
    requires NumberParts(s, b, c)
    ensures SignEnd(s, 0) == IntegerStart(s) && IsDigit(s[IntegerStart(s)])
    ensures IntegerEnd(s, IntegerStart(s)) == b
  {
    var a := IntegerStart(s);
    if s[a] != '0' {
      SpanExact(s, a, b, Digit);
    }
  }

  /** Every lexeme of the grammar is read by the scanner whole. */
  lemma {:induction false} ExtentOfLexeme(s: string)
    requires NumberLexeme(s)
    ensures NumberExtent(s, 0) == Ok(Some(|s|))
  {
    var b: nat, c: nat :| b <= |s| && c <= |s| && NumberParts(s, b, c);
    IntegerOfParts(s, b, c);
    FractionOfParts(s, b, c);
    ExponentOfParts(s, b, c);
    ScanEnds(s, 0, |s|);
  }

  /** Everything the scanner reads whole is a lexeme of the grammar. */
  lemma {:induction false} LexemeOfExtent(s: string)
    requires NumberExtent(s, 0) == Ok(Some(|s|))
    ensures NumberLexeme(s)
  {
    var a, b := ExtentParts(s, 0);
    var c := FractionEnd(s, b).value;
    if c < |s| {
      ExponentDigits(s, c);
    }
    assert IntegerStart(s) == a;
    assert NumberParts(s, b, c);
  }

  /** The scanner reads a text whole exactly when it is a lexeme of the grammar. */
  lemma {:induction false} NumberLexemeIff(s: string)
    ensures NumberLexeme(s) <==> NumberExtent(s, 0) == Ok(Some(|s|))
  {
    if NumberLexeme(s) {
      ExtentOfLexeme(s);
    }
    if NumberExtent(s, 0) == Ok(Some(|s|)) {
      LexemeOfExtent(s);
    }
  }

  /** Every lexeme of the grammar, written anywhere and followed by something
      that does not continue a number, is read up to its end and converted:
      to the integer it denotes when it has no fraction and no exponent, and
      kept as itself otherwise. */
  lemma {:induction false} LexemeScans(s: string, text: string, pos: nat)
    requires NumberLexeme(s) && pos + |s| <= |text| && text[pos..pos + |s|] == s
    requires Delimited(text, pos + |s|)
    ensures |s| > 0 && (s[0] == '-' || IsDigit(s[0]))
    ensures !HasFractionOrExponent(s) ==> forall i :: 0 < i < |s| ==> IsDigit(s[i])
    ensures ScanNumber(text, pos) == Ok((Some(NumberOf(s)), pos + |s|))
  {
    ExtentOfLexeme(s);
    EmbeddedScan(s, text, pos);
  }

  lemma {:induction false} EmbeddedScan(s: string, text: string, pos: nat)
    requires NumberExtent(s, 0) == Ok(Some(|s|)) && pos + |s| <= |text| && text[pos..pos + |s|] == s
    requires Delimited(text, pos + |s|)
    ensures |s| > 0 && (s[0] == '-' || IsDigit(s[0]))
    ensures !HasFractionOrExponent(s) ==> forall i :: 0 < i < |s| ==> IsDigit(s[i])
    ensures ScanNumber(text, pos) == Ok((Some(NumberOf(s)), pos + |s|))
  {
    ExtentEmbedded(s, text, pos);
    ScanWhole(text, pos, pos + |s|, s);
  }

  /** What the scanner returns for the number it reads up to `q`. */
  lemma {:induction false} ScanWhole(text: string, pos: nat, q: nat, lexeme: string)
    requires pos <= |text| && NumberExtent(text, pos) == Ok(Some(q)) && text[pos..q] == lexeme
    ensures |lexeme| > 0 && (lexeme[0] == '-' || IsDigit(lexeme[0]))
    ensures !HasFractionOrExponent(lexeme) ==> forall i :: 0 < i < |lexeme| ==> IsDigit(lexeme[i])
    ensures ScanNumber(text, pos) == Ok((Some(NumberOf(lexeme)), q))
  {
    ExtentLexeme(text, pos);
    forall i | 0 <= i < |lexeme|
      ensures lexeme[i] == text[pos + i]
    {
    }
  }

  /** The text a `float` is made of: a lexeme of the number grammar with a
      fraction or an exponent. */
  predicate FracLexeme(lexeme: string)
  {
    NumberLexeme(lexeme) && HasFractionOrExponent(lexeme)
  }

  /** Every fractional number the scanner reads has such a lexeme. */
  lemma {:induction false} ReadFracLexeme(text: string, pos: nat)
    requires pos <= |text| && ScanNumber(text, pos).Ok? && ScanNumber(text, pos).value.0.Some?
    requires ScanNumber(text, pos).value.0.value.Fractional?
    ensures FracLexeme(ScanNumber(text, pos).value.0.value.lexeme)
  {
    var q := NumberExtent(text, pos).value.value;
    ExtentAlone(text, pos, q);
    LexemeOfExtent(text[pos..q]);
  }

  /** Such a lexeme, written anywhere and followed by something that does not
      continue a number, is read back as itself. */
  lemma {:induction false} FracScans(lexeme: string, text: string, pos: nat)
    requires FracLexeme(lexeme) && pos + |lexeme| <= |text| && text[pos..pos + |lexeme|] == lexeme
    requires Delimited(text, pos + |lexeme|)
    ensures ScanNumber(text, pos) == Ok((Some(Fractional(lexeme)), pos + |lexeme|))
  {
    ExtentOfLexeme(lexeme);
    EmbeddedScan(lexeme, text, pos);
  }

  // -------------------------------------------------------------- integers

  function DigitChar(d: nat): (r: char)
    requires d < 10
    ensures IsDigit(r) && DigitValue(r) == d
  {
    ('0' as int + d) as char
  }

  /** The decimal digits of `n`, as `str(n)` writes them. */
  function NatText(n: nat): (r: string)
    ensures |r| > 0 && forall i :: 0 <= i < |r| ==> IsDigit(r[i])
    ensures r[0] == '0' <==> n == 0
    ensures r[0] == '0' ==> |r| == 1
    decreases n
  {
    if n < 10 then [DigitChar(n)] else NatText(n / 10) + [DigitChar(n % 10)]
  }

  /** The decimal text of an integer: a minus sign for a negative one. */
  function DecimalText(i: int): (r: string)
    ensures |r| > 0 && (r[0] == '-' || IsDigit(r[0])) && forall k :: 0 < k < |r| ==> IsDigit(r[k])
  {
    if i < 0 then "-" + NatText(-i) else NatText(i)
  }

  lemma {:induction false} NatTextValue(n: nat)
    ensures DigitsValue(NatText(n)) == n
    decreases n
  {
    if n >= 10 {
      NatTextValue(n / 10);
      var r := NatText(n);
      assert r[..|r| - 1] == NatText(n / 10);
    }
  }

  /** The decimal text of an integer has no fraction or exponent and denotes it. */
  lemma {:induction false} DecimalValue(i: int)
    ensures !HasFractionOrExponent(DecimalText(i)) && IntValue(DecimalText(i)) == i
  {
    var t := DecimalText(i);
    NoMark(t);
    if i < 0 {
      assert t[1..] == NatText(-i);
      NatTextValue(-i);
    } else {
      NatTextValue(i);
    }
  }

  /** The decimal text of an integer, written anywhere and followed by
      something that does not continue a number, is read as that integer. */
  lemma {:induction false} DecimalScans(i: int, text: string, pos: nat)
    requires pos + |DecimalText(i)| <= |text| && text[pos..pos + |DecimalText(i)|] == DecimalText(i)
    requires Delimited(text, pos + |DecimalText(i)|)
    ensures ScanNumber(text, pos) == Ok((Some(Integer(i)), pos + |DecimalText(i)|))
  {
    var t := DecimalText(i);
    var b := pos + |t|;
    var a := if i < 0 then pos + 1 else pos;
    assert t[a - pos..] == NatText(if i < 0 then -i else i);
    forall k | a <= k < b
      ensures IsDigit(text[k])
    {
      assert text[k] == t[k - pos];
    }
    assert text[pos] == t[0];
    assert SignEnd(text, pos) == a;
    if text[a] != '0' {
      SpanExact(text, a, b, Digit);
    } else {
      assert t[a - pos] == '0';
    }
    ScanOk(text, pos, b, b, b);
    DecimalValue(i);
  }

  /** The decimal text of every integer is read back, whole, as that integer. */
  lemma {:induction false} DecimalReadBack(i: int)
    ensures ScanNumber(DecimalText(i), 0) == Ok((Some(Integer(i)), |DecimalText(i)|))
  {
    var t := DecimalText(i);
    assert t[0..|t|] == t;
    DecimalScans(i, t, 0);
  }

  // ------------------------------------------------------------ test vectors

  /** The integers of the project's tests, 123 and -456. */
  lemma {:induction false} PositiveIntegerVector()
    ensures ScanNumber("123", 0) == Ok((Some(Integer(123)), 3))
  {
    DecimalReadBack(123);
    assert DecimalText(123) == "123";
  }

  lemma {:induction false} NegativeIntegerVector()
    ensures ScanNumber("-456", 0) == Ok((Some(Integer(-456)), 4))
  {
    DecimalReadBack(-456);
    assert DecimalText(-456) == "-456";
  }

  /** The fractional numbers of the project's tests: 3.14, 1.23e-10 and 2.5E+20. */
  lemma {:induction false} FractionVector()
    ensures ScanNumber("3.14", 0) == Ok((Some(Fractional("3.14")), 4))
  {
    var t := "3.14";
    SpanExact(t, 0, 1, Digit);
    SpanExact(t, 2, 4, Digit);
    ScanOk(t, 0, 1, 4, 4);
    assert t[0..4] == t;
  }

  lemma {:induction false} NegativeExponentVector()
    ensures ScanNumber("1.23e-10", 0) == Ok((Some(Fractional("1.23e-10")), 8))
  {
    var t := "1.23e-10";
    SpanExact(t, 0, 1, Digit);
    SpanExact(t, 2, 4, Digit);
    SpanExact(t, 6, 8, Digit);
    ScanOk(t, 0, 1, 4, 8);
    assert t[0..8] == t;
  }

  lemma {:induction false} PositiveExponentVector()
    ensures ScanNumber("2.5E+20", 0) == Ok((Some(Fractional("2.5E+20")), 7))
  {
    var t := "2.5E+20";
    SpanExact(t, 0, 1, Digit);
    SpanExact(t, 2, 3, Digit);
    SpanExact(t, 5, 7, Digit);
    ScanOk(t, 0, 1, 3, 7);
    assert t[0..7] == t;
  }
}
