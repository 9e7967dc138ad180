/** The cases of tests/test_parser.py, stated on the reference parser.  The
    texts there are in the layout the printer writes, so each successful case
    is an instance of the round trip. */
module ParserVectors {
  import opened Exceptions
  import opened Values
  import opened LexerSpec
  import opened NumberGrammar
  import opened LexerProps
  import opened ParserSpec
  import opened Printer
  import opened RoundTrip
  import opened Parser

  /** Text with neither a quote nor a backslash in it. */
  predicate PlainText(h: string)
  {
    forall i :: 0 <= i < |h| ==> Plain(h[i])
  }

  /** A run of plain characters is written between the quotes as it is. */
  lemma {:induction false} PlainBody(h: string)
    requires PlainText(h)
    ensures Body(Codes(h)) == h
  {
    if h != [] {
      assert Codes(h)[1..] == Codes(h[1..]);
      assert PlainText(h[1..]) by { assert forall i :: 0 <= i < |h| - 1 ==> h[1..][i] == h[i + 1]; }
      PlainBody(h[1..]);
    }
  }

  lemma {:induction false} PlainQuoted(h: string)
    requires PlainText(h)
    ensures Quoted(Codes(h)) == "\"" + h + "\""
  {
    PlainBody(h);
  }

  /** A value written in the given text parses back under the limit it fits. */
  lemma {:induction false} Reads(v: Value, text: string, maxDepth: int)
    requires Printable(v) && DictsOnly(v) && Print(v) == text && Fits(v, 0, maxDepth)
    ensures Parse(text, maxDepth) == Ok(v)
  {
    RoundTrip.RoundTrip(v, maxDepth);
    FitsIffDepth(v, 0, maxDepth);
  }

  /** One entry written between braces. */
  lemma {:induction false} SingleEntry(k: JString, x: Value, depth: int, maxDepth: int)
    ensures Print(Obj([(k, x)])) == "{" + ((Quoted(k) + (": " + (Print(x) + ""))) + "}")
    ensures Printable(Obj([(k, x)])) == Printable(x) && DictsOnly(Obj([(k, x)])) == DictsOnly(x)
    ensures Fits(Obj([(k, x)]), depth, maxDepth) == (depth < maxDepth && Fits(x, depth + 1, maxDepth))
  {
    var ms := [(k, x)];
    assert ms[0].1 == x;
  }

  /** Two entries written between braces. */
  lemma {:induction false} TwoEntries(k: JString, x: Value, k': JString, y: Value, depth: int, maxDepth: int)
    ensures Print(Obj([(k, x), (k', y)])) ==
            "{" + ((Quoted(k) + (": " + (Print(x) + (", " + (Quoted(k') + (": " + (Print(y) + ""))))))) + "}")
    ensures Printable(Obj([(k, x), (k', y)])) == (Printable(x) && Printable(y))
    ensures DictsOnly(Obj([(k, x), (k', y)])) == (k != k' && DictsOnly(x) && DictsOnly(y))
    ensures Fits(Obj([(k, x), (k', y)]), depth, maxDepth) == (depth < maxDepth && Fits(x, depth + 1, maxDepth) && Fits(y, depth + 1, maxDepth))
  {
    var ms := [(k, x), (k', y)];
    assert ms[1..] == [(k', y)];
    assert Members(ms[1..]) == Quoted(k') + (": " + (Print(y) + ""));
    if k == k' {
      assert ms[0].0 == ms[1].0;
    }
  }

  const Name: JString := Codes("name")
  const Age: JString := Codes("age")
  const John: Value := Str(Codes("John"))

  const SimpleText: string := "{\"name\": \"John\", \"age\": 30}"
  const Simple: Value := Obj([(Name, John), (Age, Int(30))])

  lemma {:induction false} SimpleWritten()
    ensures Print(Simple) == SimpleText && Printable(Simple) && DictsOnly(Simple) && Fits(Simple, 0, MAX_DEPTH)
  {
    SimpleShape();
    SimplePlain();
    PlainQuoted("name");
    PlainQuoted("John");
    PlainQuoted("age");
    SimpleGlue(Quoted(Name), Quoted(Codes("John")), Quoted(Age), DecimalText(30));
  }

  lemma {:induction false} SimplePlain()
    ensures PlainText("name") && PlainText("John") && PlainText("age")
  {
  }

  lemma {:induction false} SimpleShape()
    ensures Print(Simple) ==
            "{" + ((Quoted(Name) + (": " + (Quoted(Codes("John")) + (", " + (Quoted(Age) + (": " + (DecimalText(30) + ""))))))) + "}")
    ensures Printable(Simple) && DictsOnly(Simple) && Fits(Simple, 0, MAX_DEPTH)
  {
    TwoEntries(Name, John, Age, Int(30), 0, MAX_DEPTH);
    assert Name != Age by { assert Name[0] != Age[0]; }
  }

  lemma {:induction false} SimpleGlue(a: string, b: string, c: string, d: string)
    requires a == "\"" + "name" + "\"" && b == "\"" + "John" + "\"" && c == "\"" + "age" + "\"" && d == "30"
    ensures "{" + ((a + (": " + (b + (", " + (c + (": " + (d + ""))))))) + "}") == SimpleText
  {
  }

  /** test_parse_simple_object */
  lemma {:induction false} SimpleObjectVector()
    ensures Parse(SimpleText, MAX_DEPTH) == Ok(Simple)
  {
    SimpleWritten();
    Reads(Simple, SimpleText, MAX_DEPTH);
  }

  /** `{"user": {"name": "Alice", "settings": {"theme": "dark"}}}`, level by level. */
  const SettingsText: string := "{\"theme\": \"dark\"}"
  const UserText: string := "{\"name\": \"Alice\", \"settings\": " + SettingsText + "}"
  const NestedText: string := "{\"user\": " + UserText + "}"
  const Settings: Value := Obj([(Codes("theme"), Str(Codes("dark")))])
  const User: Value := Obj([(Name, Str(Codes("Alice"))), (Codes("settings"), Settings)])
  const Nested: Value := Obj([(Codes("user"), User)])

  lemma {:induction false} NestedWritten()
    ensures Print(Nested) == NestedText && Printable(Nested) && DictsOnly(Nested) && Fits(Nested, 0, MAX_DEPTH)
  {
    SettingsShape();
    UserShape();
    NestedShape();
    NestedPlain();
    PlainQuoted("theme");
    PlainQuoted("dark");
    PlainQuoted("name");
    PlainQuoted("Alice");
    PlainQuoted("settings");
    PlainQuoted("user");
    SettingsGlue(Quoted(Codes("theme")), Quoted(Codes("dark")));
    UserGlue(Quoted(Name), Quoted(Codes("Alice")), Quoted(Codes("settings")), Print(Settings));
    NestedGlue(Quoted(Codes("user")), Print(User));
  }

  lemma {:induction false} NestedPlain()
    ensures PlainText("theme") && PlainText("dark") && PlainText("name") && PlainText("Alice")
    ensures PlainText("settings") && PlainText("user")
  {
  }

  lemma {:induction false} NestedShape()
    requires Printable(User) && DictsOnly(User) && Fits(User, 1, MAX_DEPTH)
    ensures Print(Nested) == "{" + ((Quoted(Codes("user")) + (": " + (Print(User) + ""))) + "}")
    ensures Printable(Nested) && DictsOnly(Nested) && Fits(Nested, 0, MAX_DEPTH)
  {
    SingleEntry(Codes("user"), User, 0, MAX_DEPTH);
  }

  lemma {:induction false} SettingsShape()
    ensures Print(Settings) == "{" + ((Quoted(Codes("theme")) + (": " + (Quoted(Codes("dark")) + ""))) + "}")
    ensures Printable(Settings) && DictsOnly(Settings) && Fits(Settings, 2, MAX_DEPTH)
  {
    SingleEntry(Codes("theme"), Str(Codes("dark")), 2, MAX_DEPTH);
  }

  lemma {:induction false} UserShape()
    requires Printable(Settings) && DictsOnly(Settings) && Fits(Settings, 2, MAX_DEPTH)
    ensures Print(User) ==
            "{" + ((Quoted(Name) + (": " + (Quoted(Codes("Alice")) + (", " + (Quoted(Codes("settings")) + (": " + (Print(Settings) + ""))))))) + "}")
    ensures Printable(User) && DictsOnly(User) && Fits(User, 1, MAX_DEPTH)
  {
    TwoEntries(Name, Str(Codes("Alice")), Codes("settings"), Settings, 1, MAX_DEPTH);
    assert Name != Codes("settings") by { assert Name[0] != Codes("settings")[0]; }
  }

  lemma {:induction false} SettingsGlue(a: string, b: string)
    requires a == "\"" + "theme" + "\"" && b == "\"" + "dark" + "\""
    ensures "{" + ((a + (": " + (b + ""))) + "}") == SettingsText
  {
  }

  lemma {:induction false} UserGlue(a: string, b: string, c: string, d: string)
    requires a == "\"" + "name" + "\"" && b == "\"" + "Alice" + "\"" && c == "\"" + "settings" + "\"" && d == SettingsText
    ensures "{" + ((a + (": " + (b + (", " + (c + (": " + (d + ""))))))) + "}") == UserText
  {
    var head := "{" + (a + (": " + (b + (", " + (c + ": ")))));
    assert head == "{\"name\": \"Alice\", \"settings\": ";
    Regroup(head, "{", a, b, c, d);
  }

  /** The grouping of an entry list with two entries, made flat. */
  lemma {:induction false} Regroup(head: string, o: string, a: string, b: string, c: string, d: string)
    requires head == o + (a + (": " + (b + (", " + (c + ": ")))))
    ensures o + ((a + (": " + (b + (", " + (c + (": " + (d + ""))))))) + "}") == head + d + "}"
  {
    assert d + "" == d;
  }

  lemma {:induction false} NestedGlue(a: string, b: string)
    requires a == "\"" + "user" + "\"" && b == UserText
    ensures "{" + ((a + (": " + (b + ""))) + "}") == NestedText
  {
    assert "{" + (a + ": ") == "{\"user\": ";
    assert b + "" == b;
  }

  /** test_parse_nested_object: three levels under the default limit. */
  lemma {:induction false} NestedObjectVector()
    ensures Parse(NestedText, MAX_DEPTH) == Ok(Nested)
  {
    NestedWritten();
    Reads(Nested, NestedText, MAX_DEPTH);
  }

  const ArrayText: string := "[1, 2, 3, \"four\", true, null]"
  const Six: seq<Value> := [Int(1), Int(2), Int(3), Str(Codes("four")), Bool(true), Null]

  lemma {:induction false} ArrayWritten()
    ensures Print(Arr(Six)) == ArrayText && Printable(Arr(Six)) && DictsOnly(Arr(Six)) && Fits(Arr(Six), 0, MAX_DEPTH)
  {
    ArrayShape();
    PlainQuoted("four");
    ArrayGlue(DecimalText(1), DecimalText(2), DecimalText(3), Quoted(Codes("four")));
  }

  lemma {:induction false} ArrayShape()
    ensures Print(Arr(Six)) ==
            "[" + ((DecimalText(1) + (", " + (DecimalText(2) + (", " + (DecimalText(3) + (", " + (Quoted(Codes("four"))
            + (", " + ("true" + (", " + ("null" + ""))))))))))) + "]")
    ensures Printable(Arr(Six)) && DictsOnly(Arr(Six)) && Fits(Arr(Six), 0, MAX_DEPTH)
    ensures PlainText("four")
  {
    ArrayTail();
    assert Items(Six[2..]) == DecimalText(3) + (", " + Items(Six[3..]));
    assert Items(Six[1..]) == DecimalText(2) + (", " + Items(Six[2..]));
  }

  lemma {:induction false} ArrayTail()
    ensures Items(Six[3..]) == Quoted(Codes("four")) + (", " + ("true" + (", " + ("null" + ""))))
  {
    assert Items(Six[5..]) == "null" + "";
    assert Items(Six[4..]) == "true" + (", " + ("null" + ""));
  }

  lemma {:induction false} ArrayGlue(a: string, b: string, c: string, d: string)
    requires a == "1" && b == "2" && c == "3" && d == "\"" + "four" + "\""
    ensures "[" + ((a + (", " + (b + (", " + (c + (", " + (d + (", " + ("true" + (", " + ("null" + ""))))))))))) + "]") == ArrayText
  {
  }

  /** test_parse_array: six values in order. */
  lemma {:induction false} ArrayVector()
    ensures Parse(ArrayText, MAX_DEPTH) == Ok(Arr(Six))
  {
    ArrayWritten();
    Reads(Arr(Six), ArrayText, MAX_DEPTH);
  }

  const DeepText: string := "{\"a\": {\"b\": {\"c\": {\"d\": 1}}}}"
  const InnerD: Value := Obj([(Codes("d"), Int(1))])
  const InnerC: Value := Obj([(Codes("c"), InnerD)])
  const InnerB: Value := Obj([(Codes("b"), InnerC)])
  const Deep: Value := Obj([(Codes("a"), InnerB)])

  lemma {:induction false} DeepWritten()
    ensures Print(Deep) == DeepText && Printable(Deep) && DictsOnly(Deep) && !Fits(Deep, 0, 3)
  {
    DeepShape();
    DeepPlain();
    PlainQuoted("a");
    PlainQuoted("b");
    PlainQuoted("c");
    PlainQuoted("d");
    DeepGlue(Quoted(Codes("a")), Quoted(Codes("b")), Quoted(Codes("c")), Quoted(Codes("d")), DecimalText(1));
  }

  lemma {:induction false} DeepPlain()
    ensures PlainText("a") && PlainText("b") && PlainText("c") && PlainText("d")
  {
  }

  lemma {:induction false} DeepShape()
    ensures Print(Deep) ==
            "{" + ((Quoted(Codes("a")) + (": " + ("{" + ((Quoted(Codes("b")) + (": " + ("{" + ((Quoted(Codes("c")) + (": "
            + ("{" + ((Quoted(Codes("d")) + (": " + (DecimalText(1) + ""))) + "}") + ""))) + "}") + ""))) + "}") + ""))) + "}")
    ensures Printable(Deep) && DictsOnly(Deep) && !Fits(Deep, 0, 3)
  {
    SingleEntry(Codes("d"), Int(1), 3, 3);
    SingleEntry(Codes("c"), InnerD, 2, 3);
    SingleEntry(Codes("b"), InnerC, 1, 3);
    SingleEntry(Codes("a"), InnerB, 0, 3);
  }

  lemma {:induction false} DeepGlue(a: string, b: string, c: string, d: string, one: string)
    requires a == "\"" + "a" + "\"" && b == "\"" + "b" + "\"" && c == "\"" + "c" + "\"" && d == "\"" + "d" + "\"" && one == "1"
    ensures "{" + ((a + (": " + ("{" + ((b + (": " + ("{" + ((c + (": "
            + ("{" + ((d + (": " + (one + ""))) + "}") + ""))) + "}") + ""))) + "}") + ""))) + "}") == DeepText
  {
  }

  /** test_custom_max_depth: four nested objects under a limit of three. */
  lemma {:induction false} DeepVector()
    ensures Parse(DeepText, 3) == Err(TooDeep)
  {
    DeepWritten();
    RoundTrip.RoundTrip(Deep, 3);
    FitsIffDepth(Deep, 0, 3);
  }

  /** The same case on a parser built with `max_depth=3`. */
  method CustomMaxDepth() returns (r: Result<Value>)
    ensures r == Err(TooDeep)
  {
    var parser := new JSONParser(Some(3));
    r := parser.Parse(DeepText);
    DeepVector();
  }

  const UnicodeText: string := "{\"text\": \"Привет, мир! Тест\"}"
  const Hello: string := "Привет, мир! Тест"
  const Greeting: Value := Obj([(Codes("text"), Str(Codes(Hello)))])

  lemma {:induction false} UnicodeWritten()
    ensures Print(Greeting) == UnicodeText && Printable(Greeting) && DictsOnly(Greeting) && Fits(Greeting, 0, MAX_DEPTH)
  {
    UnicodeShape();
    UnicodePlain();
    PlainQuoted("text");
    PlainQuoted(Hello);
    UnicodeGlue(Quoted(Codes("text")), Quoted(Codes(Hello)));
  }

  lemma {:induction false} UnicodePlain()
    ensures PlainText("text") && PlainText(Hello)
  {
  }

  lemma {:induction false} UnicodeShape()
    ensures Print(Greeting) == "{" + (Quoted(Codes("text")) + (": " + (Quoted(Codes(Hello)) + "}")))
    ensures Printable(Greeting) && DictsOnly(Greeting) && Fits(Greeting, 0, MAX_DEPTH)
  {
    var w := Quoted(Codes(Hello));
    assert Print(Str(Codes(Hello))) == w;
    assert Members(Greeting.members) == Quoted(Codes("text")) + (": " + (w + ""));
    assert w + "" == w;
  }

  lemma {:induction false} UnicodeGlue(a: string, b: string)
    requires a == "\"" + "text" + "\"" && b == "\"" + Hello + "\""
    ensures "{" + (a + (": " + (b + "}"))) == UnicodeText
  {
  }

  /** test_unicode_characters: non-ASCII characters pass through unchanged. */
  lemma {:induction false} UnicodeVector()
    ensures Parse(UnicodeText, MAX_DEPTH) == Ok(Greeting)
  {
    UnicodeWritten();
    Reads(Greeting, UnicodeText, MAX_DEPTH);
  }

  const ScientificText: string := "{\"small\": 1.23e-10, \"large\": 2.5E+20}"
  const Scientific: Value := Obj([(Codes("small"), Frac("1.23e-10")), (Codes("large"), Frac("2.5E+20"))])

  lemma {:induction false} ScientificWritten()
    ensures Print(Scientific) == ScientificText && Printable(Scientific) && DictsOnly(Scientific)
    ensures Fits(Scientific, 0, MAX_DEPTH)
  {
    ScientificShape();
    ScientificPlain();
    PlainQuoted("small");
    PlainQuoted("large");
    ScientificGlue(Quoted(Codes("small")), Quoted(Codes("large")));
  }

  lemma {:induction false} ScientificPlain()
    ensures PlainText("small") && PlainText("large")
  {
  }

  lemma {:induction false} ScientificLexemes()
    ensures FracLexeme("1.23e-10") && FracLexeme("2.5E+20")
  {
    NegativeExponentVector();
    ReadFracLexeme("1.23e-10", 0);
    PositiveExponentVector();
    ReadFracLexeme("2.5E+20", 0);
  }

  lemma {:induction false} ScientificShape()
    ensures Print(Scientific) ==
            "{" + ((Quoted(Codes("small")) + (": " + ("1.23e-10" + (", " + (Quoted(Codes("large")) + (": " + ("2.5E+20" + ""))))))) + "}")
    ensures Printable(Scientific) && DictsOnly(Scientific) && Fits(Scientific, 0, MAX_DEPTH)
  {
    ScientificLexemes();
    TwoEntries(Codes("small"), Frac("1.23e-10"), Codes("large"), Frac("2.5E+20"), 0, MAX_DEPTH);
    assert Codes("small") != Codes("large") by { assert Codes("small")[0] != Codes("large")[0]; }
  }

  lemma {:induction false} ScientificGlue(a: string, b: string)
    requires a == "\"" + "small" + "\"" && b == "\"" + "large" + "\""
    ensures "{" + ((a + (": " + ("1.23e-10" + (", " + (b + (": " + ("2.5E+20" + ""))))))) + "}") == ScientificText
  {
    var head := "{" + (a + (": " + ("1.23e-10" + (", " + (b + ": ")))));
    assert head == "{\"small\": 1.23e-10, \"large\": ";
    Regroup(head, "{", a, "1.23e-10", b, "2.5E+20");
  }

  /** test_scientific_notation: both exponent forms are fractional numbers,
      kept as their lexemes. */
  lemma {:induction false} ScientificVector()
    ensures Parse(ScientificText, MAX_DEPTH) == Ok(Scientific)
  {
    ScientificWritten();
    Reads(Scientific, ScientificText, MAX_DEPTH);
  }

  const MissingQuoteText: string := "{\"name\": \"John}"

  /** test_invalid_json_missing_quote: the string value runs to the end of the
      text, a SyntaxError at the end of input. */
  lemma {:induction false} MissingQuoteVector()
    ensures Parse(MissingQuoteText, MAX_DEPTH) == Err(Syntax(Some(15), None))
  {
    MissingQuoteTokens();
  }

  /** The tokens of `{"name": "John}`: a brace, a key, a colon, then a string
      that never closes. */
  lemma {:induction false} MissingQuoteTokens()
    ensures NextToken(MissingQuoteText, 0) == Ok((Some(TPunct(LBrace, '{')), 1))
    ensures NextToken(MissingQuoteText, 1) == Ok((Some(TString(Name)), 7))
    ensures NextToken(MissingQuoteText, 7) == Ok((Some(TPunct(Colon, ':')), 8))
    ensures NextToken(MissingQuoteText, 8) == Err(Syntax(Some(15), None))
  {
    var t := MissingQuoteText;
    PunctAt(t, 0);
    MissingQuoteKey();
    assert TokenStart(t, 7) == 7;
    NextIsPunct(t, 7);
    MissingQuoteValue();
  }

  lemma {:induction false} MissingQuoteKey()
    ensures NextToken(MissingQuoteText, 1) == Ok((Some(TString(Name)), 7))
  {
    var t := MissingQuoteText;
    assert TokenStart(t, 1) == 1;
    PlainString(t, 1, 6);
    assert t[2..6] == "name";
  }

  lemma {:induction false} MissingQuoteValue()
    ensures NextToken(MissingQuoteText, 8) == Err(Syntax(Some(15), None))
  {
    var t := MissingQuoteText;
    assert TokenStart(t, 8) == 9;
    Unterminated(t, 9);
    NextIsString(t, 8);
  }
}
