/** The parser of src/parser.py reads back what module Printer writes: the
    textual layout of the tests in tests/test_parser.py is the printer's, and
    the depth guard turns away exactly the values nested deeper than the
    configured limit. */
module RoundTrip {
  import opened Exceptions
  import opened Values
  import opened LexerSpec
  import opened NumberGrammar
  import opened LexerProps
  import opened ParserSpec
  import opened Printer

  /** `text` holds `s` from position `pos` on. */
  predicate Holds(text: string, pos: nat, s: string)
    decreases |s|
  {
    pos + |s| <= |text| && (s == [] || (text[pos] == s[0] && Holds(text, pos + 1, s[1..])))
  }

  lemma {:induction false} HoldsSlice(text: string, pos: nat, s: string)
    requires Holds(text, pos, s)
    ensures pos + |s| <= |text| && text[pos..pos + |s|] == s
    decreases |s|
  {
    if s != [] {
      HoldsSlice(text, pos + 1, s[1..]);
      assert text[pos..pos + |s|] == [text[pos]] + text[pos + 1..pos + |s|];
    }
  }

  lemma {:induction false} HoldsSplit(text: string, pos: nat, s: string, t: string)
    requires Holds(text, pos, s + t)
    ensures Holds(text, pos, s) && Holds(text, pos + |s|, t)
    decreases |s|
  {
    if s == [] {
      assert s + t == t;
    } else {
      assert (s + t)[0] == s[0] && (s + t)[1..] == s[1..] + t;
      HoldsSplit(text, pos + 1, s[1..], t);
    }
  }

  lemma {:induction false} HoldsChar(text: string, pos: nat, s: string, i: nat)
    requires Holds(text, pos, s) && i < |s|
    ensures text[pos + i] == s[i]
    decreases i
  {
    if i > 0 {
      HoldsChar(text, pos + 1, s[1..], i - 1);
    }
  }

  lemma {:induction false} HoldsRest(text: string, pos: nat)
    requires pos <= |text|
    ensures Holds(text, pos, text[pos..])
    decreases |text| - pos
  {
    if pos < |text| {
      HoldsRest(text, pos + 1);
      assert text[pos..][1..] == text[pos + 1..];
    }
  }

  /** `text` holds `s` from position `pos` on, and the character `c` right after it. */
  predicate Closed(text: string, pos: nat, s: string, c: char)
  {
    Holds(text, pos, s) && pos + |s| < |text| && text[pos + |s|] == c
  }

  /** What may follow a value in printed text: the end, or `,` `]` `}`. */
  predicate Ends(text: string, p: nat)
  {
    p == |text| || (p < |text| && (text[p] == ',' || text[p] == ']' || text[p] == '}'))
  }

  // --------------------------------------------------------------- strings

  /** A written surrogate is read back from its `\u` escape. */
  lemma {:induction false} SurrogateReads(c: CodePoint, text: string, p: nat, acc: JString)
    requires IsSurrogate(c) && Holds(text, p, "\\u" + Hex4Text(c))
    ensures ScanStringFrom(text, p, acc) == ScanStringFrom(text, p + 6, acc + [c])
  {
    Hex4TextValue(c);
    HoldsSplit(text, p, "\\u", Hex4Text(c));
    HoldsChar(text, p, "\\u", 0);
    HoldsChar(text, p, "\\u", 1);
    HoldsSlice(text, p + 2, Hex4Text(c));
    forall i | p + 2 <= i < p + 6
      ensures IsHexDigit(text[i])
    {
      HoldsChar(text, p + 2, Hex4Text(c), i - (p + 2));
    }
    UnicodeEscape(text, p, acc);
  }

  /** One written code point, `n` characters long, is read back as itself. */
  lemma {:induction false} UnitReads(c: CodePoint, text: string, p: nat, n: nat, acc: JString)
    requires Holds(text, p, EscapeUnit(c)) && n == |EscapeUnit(c)|
    ensures ScanStringFrom(text, p, acc) == ScanStringFrom(text, p + n, acc + [c])
  {
    var e := EscapeUnit(c);
    HoldsChar(text, p, e, 0);
    if c == '"' as int || c == '\\' as int {
      HoldsChar(text, p, e, 1);
      SingleEscape(text, p, acc);
    } else if IsSurrogate(c) {
      SurrogateReads(c, text, p, acc);
    }
  }

  /** The written contents of a string, then the quote before `end`, read back
      as the string. */
  lemma {:induction false} BodyReads(s: JString, text: string, p: nat, end: nat, acc: JString)
    requires Closed(text, p, Body(s), '"') && end == p + |Body(s)| + 1
    ensures ScanStringFrom(text, p, acc) == Ok((acc + s, end))
    decreases |s|
  {
    if s == [] {
      BodyEnd(text, p, acc);
      assert acc + s == acc;
    } else {
      var n := BodyStep(s, text, p);
      var acc' := acc + [s[0]];
      BodyReads(s[1..], text, p + n, end, acc');
      BodyCons(s, text, p, n, end, acc, acc');
    }
  }

  lemma {:induction false} BodyEnd(text: string, p: nat, acc: JString)
    requires p < |text| && text[p] == '"'
    ensures ScanStringFrom(text, p, acc) == Ok((acc, p + 1))
  {
  }

  lemma {:induction false} BodyStep(s: JString, text: string, p: nat) returns (n: nat)
    requires s != [] && Closed(text, p, Body(s), '"')
    ensures n == |EscapeUnit(s[0])| && |Body(s)| == n + |Body(s[1..])|
    ensures Holds(text, p, EscapeUnit(s[0])) && Closed(text, p + n, Body(s[1..]), '"')
  {
    HoldsSplit(text, p, EscapeUnit(s[0]), Body(s[1..]));
    n := |EscapeUnit(s[0])|;
  }

  lemma {:induction false} BodyCons(s: JString, text: string, p: nat, n: nat, end: nat, acc: JString, acc': JString)
    requires s != [] && n == |EscapeUnit(s[0])| && acc' == acc + [s[0]]
    requires Holds(text, p, EscapeUnit(s[0])) && p + n <= |text|
    requires ScanStringFrom(text, p + n, acc') == Ok((acc' + s[1..], end))
    ensures ScanStringFrom(text, p, acc) == Ok((acc + s, end))
  {
    UnitReads(s[0], text, p, n, acc);
    assert acc' + s[1..] == acc + s;
  }

  /** A written string literal is read back as the string, the cursor just
      past its closing quote. */
  lemma {:induction false} QuotedReads(s: JString, text: string, p: nat, a: nat)
    requires Holds(text, p, Quoted(s)) && a == p + |Quoted(s)|
    ensures p < |text| && text[p] == '"'
    ensures ScanString(text, p) == Ok((s, a))
  {
    Enclosed(text, p, "\"", Body(s), "\"");
    BodyReads(s, text, p + 1, a, []);
    assert [] + s == s;
  }

  /** Text holding the one-character `o`, then `b`, then the one-character `c`. */
  lemma {:induction false} Enclosed(text: string, p: nat, o: string, b: string, c: string)
    requires |o| == 1 && |c| == 1 && Holds(text, p, o + (b + c))
    ensures p < |text| && text[p] == o[0] && Closed(text, p + 1, b, c[0]) && |o + (b + c)| == |b| + 2
  {
    HoldsSplit(text, p, o, b + c);
    HoldsSplit(text, p + 1, b, c);
    HoldsChar(text, p, o, 0);
    HoldsChar(text, p + 1 + |b|, c, 0);
  }

  /** A written string literal is one string token carrying the string. */
  lemma {:induction false} StringToken(s: JString, text: string, p: nat, a: nat)
    requires Holds(text, p, Quoted(s)) && a == p + |Quoted(s)|
    ensures NextToken(text, p) == Ok((Some(TString(s)), a))
  {
    QuotedReads(s, text, p, a);
    assert TokenStart(text, p) == p;
    NextIsString(text, p);
  }

  // ------------------------------------------------------- scalar values

  /** The first token of the text at `pos` is `t`, ending at `q`; it closes no
      bracket; and parsing from that token gives `v` back, ending at `end`,
      when `v` fits under the depth limit from level `depth`, and a
      DepthError otherwise. */
  predicate ReadsBack(v: Value, text: string, pos: nat, end: nat, depth: int, maxDepth: int, t: Token, q: nat)
  {
    q <= |text| && pos <= |text| && NextToken(text, pos) == Ok((Some(t), q))
    && !IsPunct(t, RBracket) && !IsPunct(t, RBrace)
    && ParseValue(text, q, t, depth, maxDepth) == if Fits(v, depth, maxDepth) then Ok((v, end)) else Err(TooDeep)
  }

  lemma {:induction false} NullReads(v: Value, text: string, pos: nat, end: nat, depth: int, maxDepth: int) returns (t: Token, q: nat)
    requires v == Null && Holds(text, pos, Print(v)) && end == pos + |Print(v)| && Ends(text, end)
    ensures ReadsBack(v, text, pos, end, depth, maxDepth, t, q)
  {
    HoldsSlice(text, pos, "null");
    KeywordAt(text, pos, "null");
    t, q := TNull, pos + 4;
  }

  lemma {:induction false} BoolReads(v: Value, text: string, pos: nat, end: nat, depth: int, maxDepth: int) returns (t: Token, q: nat)
    requires v.Bool? && Holds(text, pos, Print(v)) && end == pos + |Print(v)| && Ends(text, end)
    ensures ReadsBack(v, text, pos, end, depth, maxDepth, t, q)
  {
    var w := if v.b then "true" else "false";
    HoldsSlice(text, pos, w);
    KeywordAt(text, pos, w);
    t, q := if v.b then TTrue else TFalse, pos + |w|;
  }

  lemma {:induction false} IntReads(v: Value, text: string, pos: nat, end: nat, depth: int, maxDepth: int) returns (t: Token, q: nat)
    requires v.Int? && Holds(text, pos, Print(v)) && end == pos + |Print(v)| && Ends(text, end)
    ensures ReadsBack(v, text, pos, end, depth, maxDepth, t, q)
  {
    var w := DecimalText(v.i);
    HoldsSlice(text, pos, w);
    DecimalScans(v.i, text, pos);
    HoldsChar(text, pos, w, 0);
    NumberAt(text, pos);
    t, q := TNumber(Integer(v.i)), end;
  }

  lemma {:induction false} FracReads(v: Value, text: string, pos: nat, end: nat, depth: int, maxDepth: int) returns (t: Token, q: nat)
    requires v.Frac? && FracLexeme(v.lexeme) && Holds(text, pos, Print(v)) && end == pos + |Print(v)| && Ends(text, end)
    ensures ReadsBack(v, text, pos, end, depth, maxDepth, t, q)
  {
    var l := v.lexeme;
    HoldsSlice(text, pos, l);
    FracScans(l, text, pos);
    assert l[0] == '-' || IsDigit(l[0]);
    HoldsChar(text, pos, l, 0);
    NumberAt(text, pos);
    t, q := TNumber(Fractional(l)), end;
  }

  lemma {:induction false} StrReads(v: Value, text: string, pos: nat, end: nat, depth: int, maxDepth: int) returns (t: Token, q: nat)
    requires v.Str? && Holds(text, pos, Print(v)) && end == pos + |Print(v)|
    ensures ReadsBack(v, text, pos, end, depth, maxDepth, t, q)
  {
    StringToken(v.s, text, pos, end);
    t, q := TString(v.s), end;
  }

  // ------------------------------------------------- steps of the parser

  /** `[` then `]`: an empty array, unless the depth guard refuses it. */
  lemma {:induction false} EmptyArray(text: string, p: nat, depth: int, maxDepth: int)
    requires depth < maxDepth && p < |text| && text[p] == ']'
    ensures ParseArray(text, p, depth, maxDepth) == Ok((Arr([]), p + 1))
  {
    PunctAt(text, p);
  }

  lemma {:induction false} FirstElement(text: string, p: nat, depth: int, maxDepth: int, t: Token, q: nat)
    requires depth < maxDepth && p <= |text| && NextToken(text, p) == Ok((Some(t), q)) && !IsPunct(t, RBracket)
    ensures ParseArray(text, p, depth, maxDepth) == ParseElements(text, q, t, depth + 1, maxDepth, [])
  {
  }

  /** A punctuation character is read as its token. */
  lemma {:induction false} PunctToken(text: string, p: nat, c: char, k: Punct)
    requires p < |text| && text[p] == c && PunctOf(c) == Some(k)
    ensures NextToken(text, p) == Ok((Some(TPunct(k, c)), p + 1))
  {
    PunctAt(text, p);
  }

  /** `", "` in front of a token. */
  lemma {:induction false} SepTokens(text: string, e: nat, t: Token, q: nat)
    requires e + 2 <= |text| && text[e] == ',' && text[e + 1] == ' '
    requires NextToken(text, e + 2) == Ok((Some(t), q))
    ensures NextToken(text, e) == Ok((Some(TPunct(Comma, ',')), e + 1))
    ensures NextToken(text, e + 1) == Ok((Some(t), q))
  {
    PunctToken(text, e, ',', Comma);
    SpaceThen(text, e + 1);
  }

  /** `": "` in front of a token. */
  lemma {:induction false} HeadTokens(text: string, a: nat, t: Token, q: nat)
    requires a + 2 <= |text| && text[a] == ':' && text[a + 1] == ' '
    requires NextToken(text, a + 2) == Ok((Some(t), q))
    ensures NextToken(text, a) == Ok((Some(TPunct(Colon, ':')), a + 1))
    ensures NextToken(text, a + 1) == Ok((Some(t), q))
  {
    PunctToken(text, a, ':', Colon);
    SpaceThen(text, a + 1);
  }

  /** An element that parses to `x`, ending at `e`. */
  lemma {:induction false} ElementValue(text: string, q: nat, t: Token, depth: int, maxDepth: int, acc: seq<Value>, x: Value, e: nat)
    requires q <= |text| && ParseValue(text, q, t, depth, maxDepth) == Ok((x, e))
    ensures ParseElements(text, q, t, depth, maxDepth, acc) == AfterElement(text, e, depth, maxDepth, acc + [x])
  {
  }

  lemma {:induction false} DeepElement(text: string, q: nat, t: Token, depth: int, maxDepth: int, acc: seq<Value>)
    requires q <= |text| && ParseValue(text, q, t, depth, maxDepth) == Err(TooDeep)
    ensures ParseElements(text, q, t, depth, maxDepth, acc) == Err(TooDeep)
  {
  }

  /** `]` after an element closes the array. */
  lemma {:induction false} ClosingBracket(text: string, e: nat, end: nat, depth: int, maxDepth: int, items: seq<Value>)
    requires e <= |text| && NextToken(text, e) == Ok((Some(TPunct(RBracket, ']')), end))
    ensures AfterElement(text, e, depth, maxDepth, items) == Ok((Arr(items), end))
  {
  }

  /** `,` after an element, then the token that starts the next one. */
  lemma {:induction false} NextElement(text: string, e: nat, depth: int, maxDepth: int, items: seq<Value>, t': Token, q': nat,
                    r: Result<(Value, nat)>)
    requires e < |text| && NextToken(text, e) == Ok((Some(TPunct(Comma, ',')), e + 1))
    requires NextToken(text, e + 1) == Ok((Some(t'), q')) && ParseElements(text, q', t', depth, maxDepth, items) == r
    ensures AfterElement(text, e, depth, maxDepth, items) == r
  {
  }

  /** `{` then `}`: an empty object, unless the depth guard refuses it. */
  lemma {:induction false} EmptyObject(text: string, p: nat, depth: int, maxDepth: int)
    requires depth < maxDepth && p < |text| && text[p] == '}'
    ensures ParseObject(text, p, depth, maxDepth) == Ok((Obj([]), p + 1))
  {
    PunctAt(text, p);
  }

  lemma {:induction false} FirstMember(text: string, p: nat, depth: int, maxDepth: int, t: Token, q: nat)
    requires depth < maxDepth && p <= |text| && NextToken(text, p) == Ok((Some(t), q)) && !IsPunct(t, RBrace)
    ensures ParseObject(text, p, depth, maxDepth) == ParseMembers(text, q, t, depth + 1, maxDepth, [])
  {
  }

  /** A key, `:`, and a value that parses to `x`, ending at `e`. */
  lemma {:induction false} MemberValue(text: string, a: nat, k: JString, depth: int, maxDepth: int, acc: seq<(JString, Value)>,
                    t: Token, q: nat, x: Value, e: nat)
    requires a < |text| && NextToken(text, a) == Ok((Some(TPunct(Colon, ':')), a + 1))
    requires NextToken(text, a + 1) == Ok((Some(t), q))
    requires ParseValue(text, q, t, depth, maxDepth) == Ok((x, e))
    ensures ParseMembers(text, a, TString(k), depth, maxDepth, acc) == AfterMember(text, e, depth, maxDepth, Put(acc, k, x))
  {
  }

  lemma {:induction false} DeepMember(text: string, a: nat, k: JString, depth: int, maxDepth: int, acc: seq<(JString, Value)>,
                   t: Token, q: nat)
    requires a < |text| && NextToken(text, a) == Ok((Some(TPunct(Colon, ':')), a + 1))
    requires NextToken(text, a + 1) == Ok((Some(t), q))
    requires ParseValue(text, q, t, depth, maxDepth) == Err(TooDeep)
    ensures ParseMembers(text, a, TString(k), depth, maxDepth, acc) == Err(TooDeep)
  {
  }

  /** `}` after a member closes the object. */
  lemma {:induction false} ClosingBrace(text: string, e: nat, end: nat, depth: int, maxDepth: int, members: seq<(JString, Value)>)
    requires e <= |text| && NextToken(text, e) == Ok((Some(TPunct(RBrace, '}')), end))
    ensures AfterMember(text, e, depth, maxDepth, members) == Ok((Obj(members), end))
  {
  }

  /** `,` after a member, then the token where the next key belongs. */
  lemma {:induction false} NextMember(text: string, e: nat, depth: int, maxDepth: int, members: seq<(JString, Value)>, t': Token, q': nat,
                   r: Result<(Value, nat)>)
    requires e < |text| && NextToken(text, e) == Ok((Some(TPunct(Comma, ',')), e + 1))
    requires NextToken(text, e + 1) == Ok((Some(t'), q')) && ParseMembers(text, q', t', depth, maxDepth, members) == r
    ensures AfterMember(text, e, depth, maxDepth, members) == r
  {
  }

  /** A key new to the object is appended. */
  lemma {:induction false} PutNew(acc: seq<(JString, Value)>, ms: seq<(JString, Value)>, x: Value)
    requires ms != [] && DistinctKeys(acc + ms)
    ensures Put(acc, ms[0].0, x) == acc + [(ms[0].0, x)]
  {
    assert (acc + ms)[|acc|] == ms[0];
    assert forall i :: 0 <= i < |acc| ==> acc[i].0 == (acc + ms)[i].0;
  }

  // ------------------------------------------------------ printed layout

  /** Where the pieces of a written array are. */
  lemma {:induction false} ArrayLayout(v: Value, text: string, pos: nat)
    requires v.Arr? && Holds(text, pos, Print(v))
    ensures pos < |text| && text[pos] == '[' && Closed(text, pos + 1, Items(v.items), ']')
    ensures |Print(v)| == |Items(v.items)| + 2
  {
    Enclosed(text, pos, "[", Items(v.items), "]");
  }

  lemma {:induction false} ObjectLayout(v: Value, text: string, pos: nat)
    requires v.Obj? && Holds(text, pos, Print(v))
    ensures pos < |text| && text[pos] == '{' && Closed(text, pos + 1, Members(v.members), '}')
    ensures |Print(v)| == |Members(v.members)| + 2
  {
    Enclosed(text, pos, "{", Members(v.members), "}");
  }

  /** Text holding `w`, then `close`. */
  lemma {:induction false} LastPiece(text: string, pos: nat, w: string, close: char) returns (e: nat)
    requires Closed(text, pos, w, close)
    ensures e == pos + |w| && Holds(text, pos, w) && e < |text| && text[e] == close
  {
    e := pos + |w|;
  }

  /** Text holding `w`, a two-character separator (`", "` between entries,
      `": "` after a key), and `rest` followed by `close`. */
  lemma {:induction false} NextPiece(text: string, pos: nat, w: string, sep: string, rest: string, close: char) returns (e: nat)
    requires |sep| == 2 && Closed(text, pos, w + (sep + rest), close)
    ensures e == pos + |w| && Holds(text, pos, w) && e + 2 <= |text| && text[e] == sep[0] && text[e + 1] == sep[1]
    ensures Closed(text, e + 2, rest, close) && pos + |w + (sep + rest)| == e + 2 + |rest|
  {
    e := pos + |w|;
    HoldsSplit(text, pos, w, sep + rest);
    HoldsSplit(text, e, sep, rest);
    HoldsChar(text, e, sep, 0);
    HoldsChar(text, e, sep, 1);
  }

  /** Where the only item of written items ends. */
  lemma {:induction false} LastItemLayout(items: seq<Value>, text: string, pos: nat, end: nat) returns (e: nat)
    requires |items| == 1 && Closed(text, pos, Items(items), ']') && end == pos + |Items(items)| + 1
    ensures e == pos + |Print(items[0])| && Holds(text, pos, Print(items[0])) && e < |text| && text[e] == ']' && e + 1 == end
  {
    assert Items(items) == Print(items[0]);
    e := LastPiece(text, pos, Print(items[0]), ']');
  }

  /** Where the first of several written items ends, and what follows it. */
  lemma {:induction false} NextItemLayout(items: seq<Value>, text: string, pos: nat) returns (e: nat)
    requires |items| > 1 && Closed(text, pos, Items(items), ']')
    ensures e == pos + |Print(items[0])| && Holds(text, pos, Print(items[0])) && e + 2 <= |text| && text[e] == ',' && text[e + 1] == ' '
    ensures Closed(text, e + 2, Items(items[1..]), ']') && e + 2 + |Items(items[1..])| == pos + |Items(items)|
  {
    e := NextPiece(text, pos, Print(items[0]), ", ", Items(items[1..]), ']');
  }

  /** Text holding a key, `": "` and a value, then `}`. */
  lemma {:induction false} LastEntryPieces(text: string, pos: nat, kt: string, w: string) returns (a: nat, e: nat)
    requires Closed(text, pos, kt + (": " + w), '}')
    ensures a == pos + |kt| && e == a + 2 + |w| && Holds(text, pos, kt) && a + 2 <= |text| && text[a] == ':' && text[a + 1] == ' '
    ensures Holds(text, a + 2, w) && e < |text| && text[e] == '}' && pos + |kt + (": " + w)| == e
  {
    a := NextPiece(text, pos, kt, ": ", w, '}');
    e := LastPiece(text, a + 2, w, '}');
  }

  /** Where the key, the colon and the value of the only written entry are. */
  lemma {:induction false} LastEntryLayout(ms: seq<(JString, Value)>, text: string, pos: nat, end: nat) returns (a: nat, e: nat)
    requires |ms| == 1 && Closed(text, pos, Members(ms), '}') && end == pos + |Members(ms)| + 1
    ensures a == pos + |Quoted(ms[0].0)| && e == a + 2 + |Print(ms[0].1)|
    ensures Holds(text, pos, Quoted(ms[0].0)) && a + 2 <= |text| && text[a] == ':' && text[a + 1] == ' '
    ensures Holds(text, a + 2, Print(ms[0].1)) && e < |text| && text[e] == '}' && e + 1 == end
  {
    assert Members(ms) == Quoted(ms[0].0) + (": " + Print(ms[0].1));
    a, e := LastEntryPieces(text, pos, Quoted(ms[0].0), Print(ms[0].1));
  }

  /** Text holding a key, `": "`, a value, `", "` and more entries, then `}`. */
  lemma {:induction false} EntryLayout(text: string, pos: nat, kt: string, w: string, rest: string) returns (a: nat, e: nat)
    requires Closed(text, pos, kt + (": " + (w + (", " + rest))), '}')
    ensures a == pos + |kt| && e == a + 2 + |w| && Holds(text, pos, kt) && a + 2 <= |text| && text[a] == ':' && text[a + 1] == ' '
    ensures Holds(text, a + 2, w) && e + 2 <= |text| && text[e] == ',' && text[e + 1] == ' '
    ensures Closed(text, e + 2, rest, '}') && pos + |kt + (": " + (w + (", " + rest)))| == e + 2 + |rest|
  {
    a := NextPiece(text, pos, kt, ": ", w + (", " + rest), '}');
    e := NextPiece(text, a + 2, w, ", ", rest, '}');
  }

  /** Where the key, the colon and the value of the first of several written
      entries are, and what follows them. */
  lemma {:induction false} NextEntryLayout(ms: seq<(JString, Value)>, text: string, pos: nat) returns (a: nat, e: nat)
    requires |ms| > 1 && Closed(text, pos, Members(ms), '}')
    ensures a == pos + |Quoted(ms[0].0)| && e == a + 2 + |Print(ms[0].1)|
    ensures Holds(text, pos, Quoted(ms[0].0)) && a + 2 <= |text| && text[a] == ':' && text[a + 1] == ' '
    ensures Holds(text, a + 2, Print(ms[0].1)) && e + 2 <= |text| && text[e] == ',' && text[e + 1] == ' '
    ensures Closed(text, e + 2, Members(ms[1..]), '}') && e + 2 + |Members(ms[1..])| == pos + |Members(ms)|
  {
    a, e := EntryLayout(text, pos, Quoted(ms[0].0), Print(ms[0].1), Members(ms[1..]));
  }

  // ------------------------------------------------------ loop outcomes

  /** What the element loop gives for written items after `acc`: the array
      when every item fits, a DepthError otherwise. */
  function ItemsResult(items: seq<Value>, end: nat, depth: int, maxDepth: int, acc: seq<Value>): Result<(Value, nat)>
  {
    if forall i :: 0 <= i < |items| ==> Fits(items[i], depth, maxDepth) then Ok((Arr(acc + items), end)) else Err(TooDeep)
  }

  lemma {:induction false} ItemsResultOne(items: seq<Value>, end: nat, depth: int, maxDepth: int, acc: seq<Value>)
    requires |items| == 1
    ensures ItemsResult(items, end, depth, maxDepth, acc) ==
            if Fits(items[0], depth, maxDepth) then Ok((Arr(acc + [items[0]]), end)) else Err(TooDeep)
  {
    assert items == [items[0]];
  }

  lemma {:induction false} ItemsResultCons(items: seq<Value>, end: nat, depth: int, maxDepth: int, acc: seq<Value>)
    requires |items| > 1
    ensures ItemsResult(items, end, depth, maxDepth, acc) ==
            if Fits(items[0], depth, maxDepth) then ItemsResult(items[1..], end, depth, maxDepth, acc + [items[0]])
            else Err(TooDeep)
  {
    assert acc + [items[0]] + items[1..] == acc + items;
    assert (forall i :: 0 <= i < |items| ==> Fits(items[i], depth, maxDepth)) <==>
           Fits(items[0], depth, maxDepth) && (forall i :: 0 <= i < |items[1..]| ==> Fits(items[1..][i], depth, maxDepth));
  }

  /** What the member loop gives for written entries with distinct keys after
      `acc`: the object when every value fits, a DepthError otherwise. */
  function MembersResult(ms: seq<(JString, Value)>, end: nat, depth: int, maxDepth: int, acc: seq<(JString, Value)>): Result<(Value, nat)>
  {
    if forall i :: 0 <= i < |ms| ==> Fits(ms[i].1, depth, maxDepth) then Ok((Obj(acc + ms), end)) else Err(TooDeep)
  }

  lemma {:induction false} MembersResultOne(ms: seq<(JString, Value)>, end: nat, depth: int, maxDepth: int, acc: seq<(JString, Value)>)
    requires |ms| == 1 && DistinctKeys(acc + ms)
    ensures MembersResult(ms, end, depth, maxDepth, acc) ==
            if Fits(ms[0].1, depth, maxDepth) then Ok((Obj(Put(acc, ms[0].0, ms[0].1)), end)) else Err(TooDeep)
  {
    PutNew(acc, ms, ms[0].1);
    assert ms == [(ms[0].0, ms[0].1)];
  }

  lemma {:induction false} MembersResultCons(ms: seq<(JString, Value)>, end: nat, depth: int, maxDepth: int, acc: seq<(JString, Value)>)
    requires |ms| > 1 && DistinctKeys(acc + ms)
    ensures DistinctKeys(Put(acc, ms[0].0, ms[0].1) + ms[1..])
    ensures MembersResult(ms, end, depth, maxDepth, acc) ==
            if Fits(ms[0].1, depth, maxDepth) then MembersResult(ms[1..], end, depth, maxDepth, Put(acc, ms[0].0, ms[0].1))
            else Err(TooDeep)
  {
    PutNew(acc, ms, ms[0].1);
    assert ms[0] == (ms[0].0, ms[0].1);
    assert acc + [ms[0]] + ms[1..] == acc + ms;
    assert (forall i :: 0 <= i < |ms| ==> Fits(ms[i].1, depth, maxDepth)) <==>
           Fits(ms[0].1, depth, maxDepth) && (forall i :: 0 <= i < |ms[1..]| ==> Fits(ms[1..][i].1, depth, maxDepth));
  }

  // ------------------------------------------------------- loop rounds

  /** A written item that fits, then `", "` and the next token. */
  lemma {:induction false} ElementRound(x: Value, text: string, pos: nat, e: nat, depth: int, maxDepth: int, acc: seq<Value>,
                     t: Token, q: nat, t': Token, q': nat, r: Result<(Value, nat)>)
    requires ReadsBack(x, text, pos, e, depth, maxDepth, t, q) && Fits(x, depth, maxDepth)
    requires e + 2 <= |text| && text[e] == ',' && text[e + 1] == ' ' && NextToken(text, e + 2) == Ok((Some(t'), q'))
    requires q' <= |text| && ParseElements(text, q', t', depth, maxDepth, acc + [x]) == r
    ensures ParseElements(text, q, t, depth, maxDepth, acc) == r
  {
    ElementValue(text, q, t, depth, maxDepth, acc, x, e);
    SepTokens(text, e, t', q');
    NextElement(text, e, depth, maxDepth, acc + [x], t', q', r);
  }

  /** The last written item, then `]`. */
  lemma {:induction false} LastElementRound(x: Value, text: string, pos: nat, e: nat, end: nat, depth: int, maxDepth: int, acc: seq<Value>,
                         t: Token, q: nat)
    requires ReadsBack(x, text, pos, e, depth, maxDepth, t, q)
    requires e < |text| && text[e] == ']' && end == e + 1
    ensures ParseElements(text, q, t, depth, maxDepth, acc) ==
            if Fits(x, depth, maxDepth) then Ok((Arr(acc + [x]), end)) else Err(TooDeep)
  {
    if Fits(x, depth, maxDepth) {
      ElementValue(text, q, t, depth, maxDepth, acc, x, e);
      PunctToken(text, e, ']', RBracket);
      ClosingBracket(text, e, end, depth, maxDepth, acc + [x]);
    } else {
      DeepElement(text, q, t, depth, maxDepth, acc);
    }
  }

  /** A key, `": "`, a written value that fits, then `", "` and the next token. */
  lemma {:induction false} MemberRound(k: JString, x: Value, text: string, a: nat, e: nat, depth: int, maxDepth: int,
                    acc: seq<(JString, Value)>, t: Token, q: nat, t': Token, q': nat, r: Result<(Value, nat)>)
    requires a + 2 <= |text| && text[a] == ':' && text[a + 1] == ' '
    requires ReadsBack(x, text, a + 2, e, depth, maxDepth, t, q) && Fits(x, depth, maxDepth)
    requires e + 2 <= |text| && text[e] == ',' && text[e + 1] == ' ' && NextToken(text, e + 2) == Ok((Some(t'), q'))
    requires q' <= |text| && ParseMembers(text, q', t', depth, maxDepth, Put(acc, k, x)) == r
    ensures ParseMembers(text, a, TString(k), depth, maxDepth, acc) == r
  {
    HeadTokens(text, a, t, q);
    MemberValue(text, a, k, depth, maxDepth, acc, t, q, x, e);
    SepTokens(text, e, t', q');
    NextMember(text, e, depth, maxDepth, Put(acc, k, x), t', q', r);
  }

  /** A key, `": "`, the last written value, then `}`. */
  lemma {:induction false} LastMemberRound(k: JString, x: Value, text: string, a: nat, e: nat, end: nat, depth: int, maxDepth: int,
                        acc: seq<(JString, Value)>, t: Token, q: nat)
    requires a + 2 <= |text| && text[a] == ':' && text[a + 1] == ' '
    requires ReadsBack(x, text, a + 2, e, depth, maxDepth, t, q)
    requires e < |text| && text[e] == '}' && end == e + 1
    ensures ParseMembers(text, a, TString(k), depth, maxDepth, acc) ==
            if Fits(x, depth, maxDepth) then Ok((Obj(Put(acc, k, x)), end)) else Err(TooDeep)
  {
    HeadTokens(text, a, t, q);
    if Fits(x, depth, maxDepth) {
      MemberValue(text, a, k, depth, maxDepth, acc, t, q, x, e);
      PunctToken(text, e, '}', RBrace);
      ClosingBrace(text, e, end, depth, maxDepth, Put(acc, k, x));
    } else {
      DeepMember(text, a, k, depth, maxDepth, acc, t, q);
    }
  }

  /** A key, `": "`, and a written value that does not fit. */
  lemma {:induction false} DeepMemberRound(k: JString, x: Value, text: string, a: nat, e: nat, depth: int, maxDepth: int,
                        acc: seq<(JString, Value)>, t: Token, q: nat)
    requires a + 2 <= |text| && text[a] == ':' && text[a + 1] == ' '
    requires ReadsBack(x, text, a + 2, e, depth, maxDepth, t, q) && !Fits(x, depth, maxDepth)
    ensures ParseMembers(text, a, TString(k), depth, maxDepth, acc) == Err(TooDeep)
  {
    HeadTokens(text, a, t, q);
    DeepMember(text, a, k, depth, maxDepth, acc, t, q);
  }

  // ----------------------------------------------------------- the values

  /** A written value, followed by what may follow a value, is read back as
      itself when it fits under the depth limit from level `depth`, and is a
      DepthError otherwise. */
  lemma {:induction false} ValueReads(v: Value, text: string, pos: nat, end: nat, depth: int, maxDepth: int)
    returns (t: Token, q: nat)
    requires Printable(v) && DictsOnly(v)
    requires Holds(text, pos, Print(v)) && end == pos + |Print(v)| && Ends(text, end)
    ensures ReadsBack(v, text, pos, end, depth, maxDepth, t, q)
    decreases v, 2
  {
    match v
    case Null => t, q := NullReads(v, text, pos, end, depth, maxDepth);
    case Bool(_) => t, q := BoolReads(v, text, pos, end, depth, maxDepth);
    case Int(_) => t, q := IntReads(v, text, pos, end, depth, maxDepth);
    case Frac(_) => t, q := FracReads(v, text, pos, end, depth, maxDepth);
    case Str(_) => t, q := StrReads(v, text, pos, end, depth, maxDepth);
    case Arr(_) => t, q := ArrayReads(v, text, pos, end, depth, maxDepth);
    case Obj(_) => t, q := ObjectReads(v, text, pos, end, depth, maxDepth);
  }

  /** A `[` whose array body parses to `r`. */
  lemma {:induction false} OpenBracket(text: string, pos: nat, depth: int, maxDepth: int, r: Result<(Value, nat)>)
    requires pos < |text| && text[pos] == '[' && ParseArray(text, pos + 1, depth, maxDepth) == r
    ensures NextToken(text, pos) == Ok((Some(TPunct(LBracket, '[')), pos + 1))
    ensures ParseValue(text, pos + 1, TPunct(LBracket, '['), depth, maxDepth) == r
  {
    PunctToken(text, pos, '[', LBracket);
  }

  /** A `{` whose object body parses to `r`. */
  lemma {:induction false} OpenBrace(text: string, pos: nat, depth: int, maxDepth: int, r: Result<(Value, nat)>)
    requires pos < |text| && text[pos] == '{' && ParseObject(text, pos + 1, depth, maxDepth) == r
    ensures NextToken(text, pos) == Ok((Some(TPunct(LBrace, '{')), pos + 1))
    ensures ParseValue(text, pos + 1, TPunct(LBrace, '{'), depth, maxDepth) == r
  {
    PunctToken(text, pos, '{', LBrace);
  }

  lemma {:induction false} ArrayReads(v: Value, text: string, pos: nat, end: nat, depth: int, maxDepth: int)
    returns (t: Token, q: nat)
    requires v.Arr? && Printable(v) && DictsOnly(v)
    requires Holds(text, pos, Print(v)) && end == pos + |Print(v)|
    ensures ReadsBack(v, text, pos, end, depth, maxDepth, t, q)
    decreases v, 1
  {
    ArrayLayout(v, text, pos);
    ArrayBody(v, text, pos + 1, end, depth, maxDepth);
    OpenBracket(text, pos, depth, maxDepth, if Fits(v, depth, maxDepth) then Ok((v, end)) else Err(TooDeep));
    t, q := TPunct(LBracket, '['), pos + 1;
  }

  /** The array body after a written `[`, ending at `end`. */
  lemma {:induction false} ArrayBody(v: Value, text: string, p: nat, end: nat, depth: int, maxDepth: int)
    requires v.Arr? && Printable(v) && DictsOnly(v)
    requires Closed(text, p, Items(v.items), ']') && end == p + |Items(v.items)| + 1
    ensures ParseArray(text, p, depth, maxDepth) == if Fits(v, depth, maxDepth) then Ok((v, end)) else Err(TooDeep)
    decreases v, 0
  {
    var items := v.items;
    if depth < maxDepth {
      if items == [] {
        EmptyArray(text, p, depth, maxDepth);
      } else {
        var t', q' := ItemsRead(items, text, p, end, depth + 1, maxDepth, []);
        FirstElement(text, p, depth, maxDepth, t', q');
        assert [] + items == items;
      }
    }
  }

  /** The element loop over written items, up to and including the `]` before `end`. */
  lemma {:induction false} ItemsRead(items: seq<Value>, text: string, pos: nat, end: nat, depth: int, maxDepth: int,
                                     acc: seq<Value>) returns (t: Token, q: nat)
    requires items != [] && forall i :: 0 <= i < |items| ==> Printable(items[i]) && DictsOnly(items[i])
    requires Closed(text, pos, Items(items), ']') && end == pos + |Items(items)| + 1
    ensures q <= |text| && NextToken(text, pos) == Ok((Some(t), q)) && !IsPunct(t, RBracket)
    ensures ParseElements(text, q, t, depth, maxDepth, acc) == ItemsResult(items, end, depth, maxDepth, acc)
    decreases items, 2
  {
    if |items| == 1 {
      t, q := LastItemRead(items, text, pos, end, depth, maxDepth, acc);
    } else {
      t, q := NextItemRead(items, text, pos, end, depth, maxDepth, acc);
    }
  }

  lemma {:induction false} NextItemRead(items: seq<Value>, text: string, pos: nat, end: nat, depth: int, maxDepth: int,
                                        acc: seq<Value>) returns (t: Token, q: nat)
    requires |items| > 1 && forall i :: 0 <= i < |items| ==> Printable(items[i]) && DictsOnly(items[i])
    requires Closed(text, pos, Items(items), ']') && end == pos + |Items(items)| + 1
    ensures q <= |text| && NextToken(text, pos) == Ok((Some(t), q)) && !IsPunct(t, RBracket)
    ensures ParseElements(text, q, t, depth, maxDepth, acc) == ItemsResult(items, end, depth, maxDepth, acc)
    decreases items, 1
  {
    var e := NextItemLayout(items, text, pos);
    t, q := ValueReads(items[0], text, pos, e, depth, maxDepth);
    ItemRest(items, text, pos, e, end, depth, maxDepth, acc, t, q);
  }

  /** The rest of an array after an item that was read back: the items
      after it, or a DepthError when the item is too deep. */
  lemma {:induction false} ItemRest(items: seq<Value>, text: string, pos: nat, e: nat, end: nat, depth: int,
                                    maxDepth: int, acc: seq<Value>, t: Token, q: nat)
    requires |items| > 1 && forall i :: 0 <= i < |items| ==> Printable(items[i]) && DictsOnly(items[i])
    requires ReadsBack(items[0], text, pos, e, depth, maxDepth, t, q)
    requires e + 2 <= |text| && text[e] == ',' && text[e + 1] == ' '
    requires Closed(text, e + 2, Items(items[1..]), ']') && end == e + 2 + |Items(items[1..])| + 1
    ensures ParseElements(text, q, t, depth, maxDepth, acc) == ItemsResult(items, end, depth, maxDepth, acc)
    decreases items, 0
  {
    var x := items[0];
    ItemsResultCons(items, end, depth, maxDepth, acc);
    if Fits(x, depth, maxDepth) {
      var rest := acc + [x];
      var t', q' := ItemsRead(items[1..], text, e + 2, end, depth, maxDepth, rest);
      ElementRound(x, text, pos, e, depth, maxDepth, acc, t, q, t', q', ItemsResult(items[1..], end, depth, maxDepth, rest));
    } else {
      DeepElement(text, q, t, depth, maxDepth, acc);
    }
  }

  lemma {:induction false} LastItemRead(items: seq<Value>, text: string, pos: nat, end: nat, depth: int, maxDepth: int,
                                        acc: seq<Value>) returns (t: Token, q: nat)
    requires |items| == 1 && Printable(items[0]) && DictsOnly(items[0])
    requires Closed(text, pos, Items(items), ']') && end == pos + |Items(items)| + 1
    ensures q <= |text| && NextToken(text, pos) == Ok((Some(t), q)) && !IsPunct(t, RBracket)
    ensures ParseElements(text, q, t, depth, maxDepth, acc) == ItemsResult(items, end, depth, maxDepth, acc)
    decreases items, 1
  {
    var e := LastItemLayout(items, text, pos, end);
    t, q := ValueReads(items[0], text, pos, e, depth, maxDepth);
    LastItemRest(items, text, pos, e, end, depth, maxDepth, acc, t, q);
  }

  /** The last item, read back, then `]`. */
  lemma {:induction false} LastItemRest(items: seq<Value>, text: string, pos: nat, e: nat, end: nat, depth: int, maxDepth: int,
                     acc: seq<Value>, t: Token, q: nat)
    requires |items| == 1 && ReadsBack(items[0], text, pos, e, depth, maxDepth, t, q)
    requires e < |text| && text[e] == ']' && end == e + 1
    ensures ParseElements(text, q, t, depth, maxDepth, acc) == ItemsResult(items, end, depth, maxDepth, acc)
  {
    ItemsResultOne(items, end, depth, maxDepth, acc);
    LastElementRound(items[0], text, pos, e, end, depth, maxDepth, acc, t, q);
  }

  lemma {:induction false} ObjectReads(v: Value, text: string, pos: nat, end: nat, depth: int, maxDepth: int)
    returns (t: Token, q: nat)
    requires v.Obj? && Printable(v) && DictsOnly(v)
    requires Holds(text, pos, Print(v)) && end == pos + |Print(v)|
    ensures ReadsBack(v, text, pos, end, depth, maxDepth, t, q)
    decreases v, 1
  {
    ObjectLayout(v, text, pos);
    ObjectBody(v, text, pos + 1, end, depth, maxDepth);
    OpenBrace(text, pos, depth, maxDepth, if Fits(v, depth, maxDepth) then Ok((v, end)) else Err(TooDeep));
    t, q := TPunct(LBrace, '{'), pos + 1;
  }

  /** The object body after a written `{`, ending at `end`. */
  lemma {:induction false} ObjectBody(v: Value, text: string, p: nat, end: nat, depth: int, maxDepth: int)
    requires v.Obj? && Printable(v) && DictsOnly(v)
    requires Closed(text, p, Members(v.members), '}') && end == p + |Members(v.members)| + 1
    ensures ParseObject(text, p, depth, maxDepth) == if Fits(v, depth, maxDepth) then Ok((v, end)) else Err(TooDeep)
    decreases v, 0
  {
    var ms := v.members;
    if depth < maxDepth {
      if ms == [] {
        EmptyObject(text, p, depth, maxDepth);
      } else {
        assert [] + ms == ms;
        var t', q' := MembersRead(ms, text, p, end, depth + 1, maxDepth, []);
        FirstMember(text, p, depth, maxDepth, t', q');
      }
    }
  }

  /** The member loop over written entries, up to and including the `}` before `end`. */
  lemma {:induction false} MembersRead(ms: seq<(JString, Value)>, text: string, pos: nat, end: nat, depth: int,
                                       maxDepth: int, acc: seq<(JString, Value)>) returns (t: Token, q: nat)
    requires ms != [] && forall i :: 0 <= i < |ms| ==> Printable(ms[i].1) && DictsOnly(ms[i].1)
    requires DistinctKeys(acc + ms) && Closed(text, pos, Members(ms), '}') && end == pos + |Members(ms)| + 1
    ensures q <= |text| && NextToken(text, pos) == Ok((Some(t), q)) && t == TString(ms[0].0)
    ensures ParseMembers(text, q, t, depth, maxDepth, acc) == MembersResult(ms, end, depth, maxDepth, acc)
    decreases ms, 3
  {
    if |ms| == 1 {
      t, q := LastEntryRead(ms, text, pos, end, depth, maxDepth, acc);
    } else {
      t, q := NextEntryRead(ms, text, pos, end, depth, maxDepth, acc);
    }
  }

  lemma {:induction false} NextEntryRead(ms: seq<(JString, Value)>, text: string, pos: nat, end: nat, depth: int,
                                         maxDepth: int, acc: seq<(JString, Value)>) returns (t: Token, q: nat)
    requires |ms| > 1 && forall i :: 0 <= i < |ms| ==> Printable(ms[i].1) && DictsOnly(ms[i].1)
    requires DistinctKeys(acc + ms) && Closed(text, pos, Members(ms), '}') && end == pos + |Members(ms)| + 1
    ensures q <= |text| && NextToken(text, pos) == Ok((Some(t), q)) && t == TString(ms[0].0)
    ensures ParseMembers(text, q, t, depth, maxDepth, acc) == MembersResult(ms, end, depth, maxDepth, acc)
    decreases ms, 2
  {
    var k, x := ms[0].0, ms[0].1;
    assert ms[0] in ms && x < ms[0];
    var a, e := NextEntryLayout(ms, text, pos);
    StringToken(k, text, pos, a);
    t, q := TString(k), a;
    MembersResultCons(ms, end, depth, maxDepth, acc);
    if Fits(x, depth, maxDepth) {
      EntryStep(ms, text, a, e, end, depth, maxDepth, acc);
    } else {
      DeepEntry(k, x, text, a, e, depth, maxDepth, acc);
    }
  }

  /** The first of several written entries, when its value fits: the member
      loop goes on with the rest. */
  lemma {:induction false} EntryStep(ms: seq<(JString, Value)>, text: string, a: nat, e: nat, end: nat, depth: int,
                                     maxDepth: int, acc: seq<(JString, Value)>)
    requires |ms| > 1 && forall i :: 0 <= i < |ms| ==> Printable(ms[i].1) && DictsOnly(ms[i].1)
    requires DistinctKeys(Put(acc, ms[0].0, ms[0].1) + ms[1..]) && Fits(ms[0].1, depth, maxDepth)
    requires a + 2 <= |text| && text[a] == ':' && text[a + 1] == ' '
    requires Holds(text, a + 2, Print(ms[0].1)) && e == a + 2 + |Print(ms[0].1)|
    requires e + 2 <= |text| && text[e] == ',' && text[e + 1] == ' '
    requires Closed(text, e + 2, Members(ms[1..]), '}') && end == e + 2 + |Members(ms[1..])| + 1
    ensures ParseMembers(text, a, TString(ms[0].0), depth, maxDepth, acc) ==
            MembersResult(ms[1..], end, depth, maxDepth, Put(acc, ms[0].0, ms[0].1))
    decreases ms, 1
  {
    assert ms[0] in ms && ms[0].1 < ms[0];
    var t, q := CommaValue(ms[0].1, text, a + 2, e, depth, maxDepth);
    EntryRest(ms, text, a, e, end, depth, maxDepth, acc, t, q);
  }

  /** The rest of the member loop after the first of several entries, whose
      value has been read back as `t` ending at `q`. */
  /** A written value followed by `,` reads back. */
  lemma {:induction false} CommaValue(x: Value, text: string, p: nat, e: nat, depth: int, maxDepth: int) returns (t: Token, q: nat)
    requires Printable(x) && DictsOnly(x) && Holds(text, p, Print(x)) && e == p + |Print(x)|
    requires e < |text| && text[e] == ','
    ensures ReadsBack(x, text, p, e, depth, maxDepth, t, q)
    decreases x, 3
  {
    t, q := ValueReads(x, text, p, e, depth, maxDepth);
  }

  lemma {:induction false} EntryRest(ms: seq<(JString, Value)>, text: string, a: nat, e: nat, end: nat, depth: int,
                                     maxDepth: int, acc: seq<(JString, Value)>, t: Token, q: nat)
    requires |ms| > 1 && forall i :: 0 <= i < |ms| ==> Printable(ms[i].1) && DictsOnly(ms[i].1)
    requires DistinctKeys(Put(acc, ms[0].0, ms[0].1) + ms[1..]) && Fits(ms[0].1, depth, maxDepth)
    requires a + 2 <= |text| && text[a] == ':' && text[a + 1] == ' '
    requires ReadsBack(ms[0].1, text, a + 2, e, depth, maxDepth, t, q)
    requires e + 2 <= |text| && text[e] == ',' && text[e + 1] == ' '
    requires Closed(text, e + 2, Members(ms[1..]), '}') && end == e + 2 + |Members(ms[1..])| + 1
    ensures ParseMembers(text, a, TString(ms[0].0), depth, maxDepth, acc) ==
            MembersResult(ms[1..], end, depth, maxDepth, Put(acc, ms[0].0, ms[0].1))
    decreases ms, 0
  {
    var k, x := ms[0].0, ms[0].1;
    var rest := Put(acc, k, x);
    var t', q' := MembersRead(ms[1..], text, e + 2, end, depth, maxDepth, rest);
    MemberRound(k, x, text, a, e, depth, maxDepth, acc, t, q, t', q', MembersResult(ms[1..], end, depth, maxDepth, rest));
  }

  /** A written value that does not fit after a key and `": "`. */
  lemma {:induction false} DeepEntry(k: JString, x: Value, text: string, a: nat, e: nat, depth: int, maxDepth: int,
                                     acc: seq<(JString, Value)>)
    requires a + 2 <= |text| && text[a] == ':' && text[a + 1] == ' '
    requires Printable(x) && DictsOnly(x) && Holds(text, a + 2, Print(x)) && e == a + 2 + |Print(x)|
    requires e < |text| && text[e] == ',' && !Fits(x, depth, maxDepth)
    ensures ParseMembers(text, a, TString(k), depth, maxDepth, acc) == Err(TooDeep)
    decreases x, 3
  {
    var t, q := ValueReads(x, text, a + 2, e, depth, maxDepth);
    DeepMemberRound(k, x, text, a, e, depth, maxDepth, acc, t, q);
  }

  lemma {:induction false} LastEntryRead(ms: seq<(JString, Value)>, text: string, pos: nat, end: nat, depth: int,
                                         maxDepth: int, acc: seq<(JString, Value)>) returns (t: Token, q: nat)
    requires |ms| == 1 && Printable(ms[0].1) && DictsOnly(ms[0].1)
    requires DistinctKeys(acc + ms) && Closed(text, pos, Members(ms), '}') && end == pos + |Members(ms)| + 1
    ensures q <= |text| && NextToken(text, pos) == Ok((Some(t), q)) && t == TString(ms[0].0)
    ensures ParseMembers(text, q, t, depth, maxDepth, acc) == MembersResult(ms, end, depth, maxDepth, acc)
    decreases ms, 2
  {
    var a, e := LastEntryLayout(ms, text, pos, end);
    StringToken(ms[0].0, text, pos, a);
    t, q := TString(ms[0].0), a;
    LastEntryValue(ms, text, a, e, end, depth, maxDepth, acc);
  }

  /** The only written entry: the member loop reads its value, then `}`. */
  lemma {:induction false} LastEntryValue(ms: seq<(JString, Value)>, text: string, a: nat, e: nat, end: nat, depth: int,
                                          maxDepth: int, acc: seq<(JString, Value)>)
    requires |ms| == 1 && Printable(ms[0].1) && DictsOnly(ms[0].1) && DistinctKeys(acc + ms)
    requires a + 2 <= |text| && text[a] == ':' && text[a + 1] == ' '
    requires Holds(text, a + 2, Print(ms[0].1)) && e == a + 2 + |Print(ms[0].1)|
    requires e < |text| && text[e] == '}' && end == e + 1
    ensures ParseMembers(text, a, TString(ms[0].0), depth, maxDepth, acc) == MembersResult(ms, end, depth, maxDepth, acc)
    decreases ms, 1
  {
    assert ms[0] in ms && ms[0].1 < ms[0];
    var vt, vq := ValueReads(ms[0].1, text, a + 2, e, depth, maxDepth);
    LastEntryRest(ms, text, a, e, end, depth, maxDepth, acc, vt, vq);
  }

  /** The value of the last entry, read back, then `}`. */
  lemma {:induction false} LastEntryRest(ms: seq<(JString, Value)>, text: string, a: nat, e: nat, end: nat, depth: int, maxDepth: int,
                      acc: seq<(JString, Value)>, t: Token, q: nat)
    requires |ms| == 1 && DistinctKeys(acc + ms)
    requires a + 2 <= |text| && text[a] == ':' && text[a + 1] == ' '
    requires ReadsBack(ms[0].1, text, a + 2, e, depth, maxDepth, t, q)
    requires e < |text| && text[e] == '}' && end == e + 1
    ensures ParseMembers(text, a, TString(ms[0].0), depth, maxDepth, acc) == MembersResult(ms, end, depth, maxDepth, acc)
  {
    MembersResultOne(ms, end, depth, maxDepth, acc);
    LastMemberRound(ms[0].0, ms[0].1, text, a, e, end, depth, maxDepth, acc, t, q);
  }

  /** Parsing the written text of a value gives the value back when its
      nesting depth is within the limit, and a DepthError otherwise. */
  lemma {:induction false} RoundTrip(v: Value, maxDepth: int)
    requires Printable(v) && DictsOnly(v)
    ensures Parse(Print(v), maxDepth) ==
            if Depth(v) == 0 || Depth(v) <= maxDepth then Ok(v) else Err(TooDeep)
  {
    var text := Print(v);
    HoldsRest(text, 0);
    assert text[0..] == text;
    var t, q := ValueReads(v, text, 0, |text|, 0, maxDepth);
    FitsIffDepth(v, 0, maxDepth);
  }
}
