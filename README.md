# JSON lexer, parser and schema validator in Dafny

This project models the core of a small Python JSON library. The core has three parts, each built on the one before:

- `JSONLexer` (src/lexer.py) is a cursor scanner. It reads the text one character at a time and produces the tokens of RFC 8259: the six structural characters, the literals `true`/`false`/`null`, numbers and strings with their escapes.
- `JSONParser` (src/parser.py) is a recursive-descent parser. It pulls tokens from a fresh lexer, builds a value tree and guards the nesting depth.
- `JSONSchemaValidator` (src/validator.py) checks a parsed value against a simplified schema.

## Layout

- **Exceptions** holds the three error kinds of src/exceptions.py (syntax, encoding, depth). Each error carries an optional position and an optional character, and failures are values of `Result`.
- **Values** defines the parsed value tree. Fractional and exponent numbers are kept as their lexemes, strings as sequences of code points, and objects as association lists with Python dict semantics (`Lookup`, `Put`). It also defines the nesting depth.
- **LexerSpec** states, as pure functions over the text and a cursor position, what each lexer method returns and where it leaves the cursor.
- **Lexer** is the class `JSONLexer`: the fields `text`, `position` and `currentChar` with the cursor invariant `Valid()`, and one method per source method. Each method's loop is proved against the matching LexerSpec function.
- **LexerProps** and **NumberGrammar** prove what those functions mean:
  - how strings and escapes decode;
  - which character starts which token;
  - that every token moves the cursor forward;
  - the number grammar of section 6 of RFC 8259, stated without the scanner, and that the scanner reads exactly its lexemes;
  - that every integer's decimal text lexes back to the integer.
- **ParserSpec** is the reference recursive-descent parser, with the depth guard and well-formedness lemmas.
- **Parser** is the class `JSONParser`. It holds `maxDepth` and the mutable `currentDepth`, and its recursive methods are proved equal to ParserSpec.
- **Printer** writes a value in the layout of the tests. It is the partner of the parser.
- **RoundTrip** proves that parsing printed text gives the value back when it fits under the depth limit, and a DepthError otherwise.
- **Validator** holds the schema check as mutually recursive predicates, with lemmas that state each loop as a conjunction.
- **LexerVectors**, **ParserVectors** and **ValidatorVectors** hold the cases of tests/test_lexer.py, tests/test_parser.py and examples/example_usage.py.

## Repairs to the code as written

The source does not run as written. The model follows the evident intent, and each repair is marked in the Dafny:

- **String accumulator** (src/lexer.py:25, 34, 36). `result` starts as a `str` but is appended to. The model's accumulator is a sequence.
- **Escape advance** (src/lexer.py:32-34). The cursor is moved past the escape's last character. Without this, `\"` would close the string and `\n` would append an extra `n`; tests/test_lexer.py:73-76 expects clean decoding.
- **Misplaced `else`** (src/lexer.py:83-86). The `else: return None` belongs to the `if`/`elif` on the integer part ("does not start a number"). As written it belongs to the `while`, which makes every number starting 1-9 return None.
- **`get_next_token`** (src/lexer.py:116-163) becomes a method of the lexer. It is nested inside `scan_number`, and its `current_chat`/`isaplha` typos are read as `current_char`/`isalpha`.
- **Lone minus** (src/lexer.py:76-77, 106-112). A `-` not followed by a digit is a SyntaxError at the position after the `-`, with no character. As written, such a `-` falls through to the fraction and exponent checks and reaches `int("-")`, a SyntaxError at the `-` itself, while `-.5` is accepted as a float. With the `else` moved as above, `scan_number` consumes the `-` and returns None, so `get_next_token` goes on and lexes `-]` as a closing bracket and `-true` as `true`. The model instead rejects the `-` where a digit was expected, as the fraction and exponent checks do.
- **Object and array bodies** (src/parser.py:46-47) are reconstructed.
  - Members are comma-separated. Each is a string key, then `:`, then a value.
  - The matching close token ends the body.
  - A missing token inside a body is a SyntaxError without position.
  - Entering an object or array at `currentDepth >= maxDepth` is a DepthError. The depth is incremented inside and decremented on exit.

In three places the model follows the code as written, where strict JSON or a reader might expect otherwise:

- **`01`** lexes as the number `0` followed by the number `1`. No explicit leading-zero check exists, so `parse` rejects it only as trailing input.
- **`max_depth`** is `max_depth or 1000`. A zero limit also means 1000, and a negative limit is kept, so it refuses every object and array.
- **A repeated key** keeps the key's first position in the object and takes the last value, as a Python dict does.

## Model

| member | source | states |
|---|---|---|
| Lexer.JSONLexer.constructor | src/lexer.py:4-7 | the cursor starts at position 0 of the given text, with the current character the first one, or none for empty text |
| Lexer.JSONLexer.Advance | src/lexer.py:9-15 | the position grows by exactly one; the current character is the one at the new position, or none past the end; the cursor invariant survives unless the cursor was already at the end |
| Lexer.JSONLexer.SkipWhitespace | src/lexer.py:17-20 | the cursor never moves back, passes only whitespace, and stops on a non-whitespace character or at the end; it stops at the end of the whitespace run (`LexerSpec.Span`) |
| Lexer.JSONLexer.NextChar | src/lexer.py:65-70 | advances by one and returns the new current character, or a SyntaxError at the new position when the text has ended |
| Lexer.JSONLexer.ParseEscapeSequence | src/lexer.py:42-63 | returns the code point or error of `LexerSpec.Escape` and leaves the cursor on the escape's last character |
| Lexer.JSONLexer.ScanString | src/lexer.py:22-40 | returns the decoded contents or error of `LexerSpec.ScanString` and, on success, leaves the cursor just past the closing quote |
| Lexer.JSONLexer.SkipDigits | src/lexer.py:83-84 | stops at the end of the run of digits |
| Lexer.JSONLexer.ScanFraction | src/lexer.py:89-94 | fails exactly when a `.` is not followed by a digit, with the error of `LexerSpec.FractionEnd`; otherwise leaves the cursor after the fraction digits |
| Lexer.JSONLexer.ScanExponent | src/lexer.py:96-104 | fails exactly when an exponent marker and its optional sign are not followed by a digit; otherwise leaves the cursor after the exponent digits |
| Lexer.JSONLexer.ScanNumber | src/lexer.py:72-112 | returns the number, "not a number" or the error of `LexerSpec.ScanNumber`, with the cursor where that function ends |
| Lexer.JSONLexer.FinishNumber | src/lexer.py:88-110 | from the end of the integer part, reads fraction and exponent and returns what `LexerSpec.ScanNumber` returns for the whole lexeme |
| Lexer.JSONLexer.GetNextToken | src/lexer.py:116-163 | returns the token, none or the error of `LexerSpec.NextToken`, with the cursor where that function ends |
| LexerSpec.Span | src/lexer.py:17-20 | the end of the longest run of one character class from a position: every character before it is in the class, the one at it is not |
| LexerSpec.PunctOf | src/lexer.py:152-161 | defined exactly on `{ } [ ] , :`; each kind maps back to its own character, so the table is one-to-one |
| LexerSpec.EscapeTable | src/lexer.py:44-56 | defined exactly on the eight escape characters; quote, backslash and slash stand for themselves |
| LexerSpec.Hex4Value | src/lexer.py:57-60 | four hex digits give a value below 0x10000, one UTF-16 code unit |
| LexerSpec.Escape | src/lexer.py:42-70 | on success the cursor stays inside the text after the backslash; the only errors are an EncodingError and a SyntaxError at the end of input |
| LexerSpec.ScanStringFrom | src/lexer.py:28-39 | on success the scan ends just past a closing quote |
| LexerSpec.ScanString | src/lexer.py:22-40 | a successful scan consumes both quotes |
| LexerSpec.FractionEnd | src/lexer.py:89-94 | fails exactly when a `.` is not followed by a digit; otherwise the fraction is a `.` and at least one digit, or nothing |
| LexerSpec.ExponentEnd | src/lexer.py:96-104 | a non-empty exponent starts with `e` or `E` |
| LexerSpec.NumberExtent | src/lexer.py:72-105 | there is no number exactly when the character does not start one (`-` or a digit); otherwise the lexeme is non-empty |
| LexerSpec.ScanNumber | src/lexer.py:72-112 | "not a number" exactly when the character does not start one, and then the cursor does not move; a number always advances |
| LexerSpec.IntegerEnd | src/lexer.py:80-84 | the integer part is a non-empty run of digits |
| LexerSpec.HasFractionOrExponentIn | src/lexer.py:108 | a lexeme counts as fractional exactly when it contains `.`, `e` or `E` |
| LexerSpec.Keyword | src/lexer.py:133-146 | a successful keyword scan gives a token and advances |
| LexerSpec.NextToken | src/lexer.py:116-163 | none exactly when only whitespace remains, and then the cursor is at the end; a token always advances |
| LexerProps.PlainRun | src/lexer.py:35-37 | characters other than quote and backslash are appended unchanged, non-ASCII included |
| LexerProps.PlainString | src/lexer.py:22-40 | a quoted run of plain characters decodes to exactly those characters, with the cursor just past the closing quote |
| LexerProps.Unterminated | src/lexer.py:28-30 | a string without a closing quote or escape is a SyntaxError at the end of input |
| LexerProps.NoClosingQuote | src/lexer.py:28-30 | a string with no later quote character fails |
| LexerProps.SingleEscape | src/lexer.py:32-34 | a backslash and a table character append the table's character and continue two characters on |
| LexerProps.UnicodeEscape | src/lexer.py:57-60 | `\u` and four hex digits append the code unit of that value and continue six characters on |
| LexerProps.InvalidEscape | src/lexer.py:63 | a backslash followed by any other character, or by nothing, is an EncodingError |
| LexerProps.BadHexEscape | src/lexer.py:59-62 | a non-hex character among four available ones is an EncodingError |
| LexerProps.ShortUnicodeEscape | src/lexer.py:65-70 | input ending inside the four hex digits is a SyntaxError at the end of input |
| LexerProps.ScanStringShift | src/lexer.py:22-40 | a string decodes the same wherever it stands in the text |
| LexerProps.NextIsString | src/lexer.py:118-125 | after whitespace, a quote gives the string token of `scan_string`, or its error |
| LexerProps.NextIsNumber | src/lexer.py:127-130 | after whitespace, `-` or a digit gives the number token of `scan_number`, or its error |
| LexerProps.NextIsKeyword | src/lexer.py:132-146 | after whitespace, the maximal alphabetic run is `true`, `false` or `null`; any other run is a SyntaxError at its start |
| LexerProps.NextIsPunct | src/lexer.py:148-161 | after whitespace, a structural character gives its kind and itself, one character on |
| LexerProps.NextIsInvalid | src/lexer.py:148-163 | after whitespace, any other character is a SyntaxError carrying its position and the character |
| LexerProps.SpaceThen | src/lexer.py:118 | whitespace before a token does not change the token |
| LexerProps.TokensAdvance | src/lexer.py:116-163 | none exactly when the rest is whitespace; every token strictly advances the cursor |
| NumberGrammar.ScanShape | src/lexer.py:72-110 | an accepted lexeme is `-? (0 \| [1-9][0-9]*) (.[0-9]+)? ([eE][+-]?[0-9]+)?`, is an integer exactly when it has no fraction and no exponent, and is `text[start:position]` |
| NumberGrammar.LoneMinus | src/lexer.py:76-77 | a `-` not followed by a digit is a SyntaxError at the next position |
| NumberGrammar.FractionNeedsDigit | src/lexer.py:89-92 | a `.` not followed by a digit is a SyntaxError just after it |
| NumberGrammar.ExponentNeedsDigit | src/lexer.py:96-102 | an exponent marker and optional sign not followed by a digit is a SyntaxError there |
| NumberGrammar.ScanOk | src/lexer.py:106-110 | integer part, fraction and exponent together give an integer token or the lexeme as a fractional token |
| NumberGrammar.DecimalScans | src/lexer.py:106-110 | the decimal text of any integer, followed by a delimiter, lexes to that integer |
| NumberGrammar.DecimalReadBack | src/lexer.py:106-110 | every integer's decimal text reads back to the integer |
| NumberGrammar.NumberLexemeIff | src/lexer.py:72-104 | the scanner reads a text whole exactly when it is a lexeme of the number grammar `-? (0 \| [1-9][0-9]*) (.[0-9]+)? ([eE][+-]?[0-9]+)?`, stated by split points and digit runs without the scanner |
| NumberGrammar.LexemeScans | src/lexer.py:72-110 | every lexeme of that grammar, written anywhere and followed by a delimiter, is read up to its end and converted: `int` without `.`, `e` and `E`, the lexeme otherwise |
| NumberGrammar.ReadFracLexeme | src/lexer.py:72-109 | every fractional number the scanner reads is a lexeme of the grammar with a fraction or an exponent |
| NumberGrammar.FracScans | src/lexer.py:106-109 | every lexeme of the grammar with a fraction or an exponent, followed by a delimiter, reads back as itself |
| NumberGrammar.PositiveIntegerVector | tests/test_lexer.py:18-20 | `123` is the integer 123 |
| NumberGrammar.NegativeIntegerVector | tests/test_lexer.py:18-21 | `-456` is the integer -456 |
| NumberGrammar.FractionVector | tests/test_lexer.py:18-22 | `3.14` is a fractional number |
| NumberGrammar.NegativeExponentVector | tests/test_lexer.py:18-23 | `1.23e-10` is a fractional number |
| NumberGrammar.PositiveExponentVector | tests/test_lexer.py:18-24 | `2.5E+20` is a fractional number |
| LexerVectors.StringVector | tests/test_lexer.py:13-16 | `"hello world"` is one string token |
| LexerVectors.TrueVector | tests/test_lexer.py:33-36 | `true` is the TRUE token |
| LexerVectors.FalseVector | tests/test_lexer.py:38-40 | `false` is the FALSE token |
| LexerVectors.NullVector | tests/test_lexer.py:42-45 | `null` is the NULL token |
| LexerVectors.PunctuationVector | tests/test_lexer.py:47-60 | `{}[]:,` gives the six punctuation tokens in order, then none |
| LexerVectors.WhitespaceVector | tests/test_lexer.py:62-71 | the spaced text gives LBRACE, STRING, COLON, NUMBER, RBRACE, then none |
| LexerVectors.UnicodeVector | tests/test_lexer.py:73-76 | six `\u` escapes decode to the Cyrillic word |
| LexerVectors.InvalidVector | tests/test_lexer.py:78-81 | `@` is a SyntaxError at position 0 carrying the character |
| Parser.JSONParser.constructor | src/parser.py:8-12 | the limit is the argument, or 1000 when it is omitted or 0; the depth starts at 0 |
| Parser.JSONParser.Parse | src/parser.py:14-30 | returns what `ParserSpec.Parse` returns for the text and the limit, whatever depth the parser held before |
| Parser.JSONParser.ParseValue | src/parser.py:32-43 | returns the value or error of `ParserSpec.ParseValue`, leaves the lexer where it ends, and restores the depth on success |
| Parser.JSONParser.NextInBody | src/parser.py:46-47 | reads the next token inside a body; end of input is a SyntaxError |
| Parser.JSONParser.ParseObject | src/parser.py:36-37 | returns what `ParserSpec.ParseObject` returns, restoring the depth on success |
| Parser.JSONParser.ParseArray | src/parser.py:38-39 | returns what `ParserSpec.ParseArray` returns, restoring the depth on success |
| Parser.ParseTwice | src/parser.py:16-17 | two parses of the same text on one parser have the same outcome |
| ParserSpec.ValueDispatch | src/parser.py:32-43 | string, number and literal tokens give their payload without reading on; `}`, `]`, `,` and `:` are a SyntaxError |
| ParserSpec.EmptyInput | src/parser.py:19-21 | empty or whitespace-only input is a SyntaxError |
| ParserSpec.TrailingInput | src/parser.py:25-30 | after the first value, the parse succeeds exactly when only whitespace follows, and returns that value |
| ParserSpec.ParseWithinLimit | src/parser.py:8-11 | a parsed value never nests deeper than the limit, and its objects have distinct keys |
| ParserSpec.ValueWellFormed | src/parser.py:32-43 | every value the parser builds passes the depth guard from its level and has distinct keys |
| RoundTrip.ValueReads | src/parser.py:32-43 | the printed text of a value, read from any level, gives the value when it fits under the limit and a DepthError otherwise |
| RoundTrip.RoundTrip | src/parser.py:14-30 | parsing a printed value gives it back when its depth is within the limit, and a DepthError otherwise |
| ParserVectors.SimpleObjectVector | tests/test_parser.py:11-14 | `{"name": "John", "age": 30}` binds name to "John" and age to 30 |
| ParserVectors.NestedObjectVector | tests/test_parser.py:16-20 | three nested objects keep their structure under the default limit |
| ParserVectors.ArrayVector | tests/test_parser.py:22-25 | `[1, 2, 3, "four", true, null]` gives those six values in order |
| ParserVectors.MissingQuoteVector | tests/test_parser.py:27-30 | the unterminated string value is a SyntaxError at the end of input |
| ParserVectors.DeepVector | tests/test_parser.py:32-37 | four nested objects under a limit of 3 are a DepthError |
| ParserVectors.CustomMaxDepth | tests/test_parser.py:32-37 | a parser built with `max_depth=3` returns that DepthError |
| ParserVectors.UnicodeVector | tests/test_parser.py:39-42 | non-ASCII characters pass through unchanged |
| ParserVectors.ScientificVector | tests/test_parser.py:44-48 | both exponent forms are fractional numbers kept as their lexemes |
| Values.Lookup | src/validator.py:29-30 | no entry exactly when no member has the key; otherwise the value of a member with that key |
| Values.Put | src/parser.py:46-47 | dict assignment: the key maps to the new value, every other key is unchanged, and a new key is appended at the end |
| Values.PutDistinct | src/parser.py:46-47 | assignment keeps the keys distinct |
| Values.FitsIffDepth | src/parser.py:8-11 | the guard `depth >= max_depth` on every entry lets a value through exactly when its nesting depth fits the limit |
| Validator.Field | src/validator.py:15-16 | `key in schema` exactly when some member has the key, and then `schema[key]` is the value of a member with that key, a part of the schema |
| Validator.UncheckedTypeAccepts | src/validator.py:12-20 | a schema with no `type`, or a `type` other than `object` and `array`, accepts every value |
| Validator.PropertiesHoldAll | src/validator.py:28-33 | the early-return property loop is the conjunction of its rounds |
| Validator.ObjectSchema | src/validator.py:22-35 | an object schema accepts exactly objects in which each declared property that is present validates and each absent one is not required; without `properties` it accepts every object |
| Validator.ItemsHoldAll | src/validator.py:43-45 | the early-return element loop is the conjunction of its rounds |
| Validator.ArraySchema | src/validator.py:37-47 | an array schema accepts exactly arrays whose every element validates against `items`; without `items` it accepts every array |
| Validator.EmptyArrayAccepted | src/validator.py:42-47 | an empty array satisfies every array schema |
| Validator.PropertiesAnyOrder | src/validator.py:28-35 | reordering the declared properties does not change the verdict |
| Validator.ItemsAnyOrder | src/validator.py:43-46 | reordering the elements does not change the verdict |
| ValidatorVectors.StringSchemas | src/validator.py:15-20 | `{"type": "string"}` schemas accept everything; `required: True` is truthy |
| ValidatorVectors.AuthorAccepted | examples/example_usage.py:19-22 | the author object with name and e-mail satisfies the author schema |
| ValidatorVectors.NamelessAuthorRejected | examples/example_usage.py:46-48 | an author without the required `name` fails the author schema |
| ValidatorVectors.ProjectAcceptedIff | examples/example_usage.py:39-52 | the project schema holds of the description exactly when the author schema holds of its `author` |
| ValidatorVectors.ExampleAccepted | examples/example_usage.py:14-58 | the example description, written as a value, satisfies the example schema |
| ValidatorVectors.ExampleWithoutNameRejected | examples/example_usage.py:39-58 | the same description without the author's name does not |

## Left out

- Float conversion: `float(number_str)` (src/lexer.py:109) is IEEE floating-point arithmetic. A fractional or exponent number is kept as its lexeme; the tests compare these values only approximately.
- Character classes: Python's Unicode `isspace`, `isdigit` and `isalpha` are narrowed to three sets:
  - the four whitespace characters of section 2 of RFC 8259;
  - the ASCII digits;
  - the ASCII letters.

  With ASCII digits the malformed-number branch of src/lexer.py:111-112 cannot be reached, so it is not modelled.
- Hex parsing: `int(hex_digits, 16)` also accepts signs, underscores, spaces and a `0x` prefix (so `\u0x41` decodes to `A` in the source); the model accepts exactly four hex digits.
- Surrogate pairs: each `\uXXXX` is decoded on its own, so a surrogate pair is not combined. Decoded strings are sequences of integer code points, so a lone surrogate can be represented.
- Exception messages: their text and formatting (src/exceptions.py:5-11) are not modelled. An error keeps only its kind, position and character, and the common base class `JSONValidationError` has no kind of its own.
- `JSONBenchmark` (src/validator.py:50-74): it measures wall-clock time and calls `json.loads`, so it is timing plus a foreign parser.
- The validator's `parser` field (src/validator.py:9-10): it is never used.
- Streaming: it is mentioned only in the parser's docstring and is not implemented.
- Scripts: tests/generate_test_report.py, setup.py and the printing in examples/example_usage.py are file output, packaging and console output.
- Depth after an error: when an error propagates, `currentDepth` may keep the raised level, since nothing restores it then. The model does not state that level. `Parse` resets it, so the next parse is unaffected.
- Concurrent use of one parser instance: it is outside a sequential model.
- Validator.Validate: it is defined only for schemas that are dicts all the way down (`IsSchema`). An object schema's `properties` must be a dict whose every value is again such a schema, and an array schema's `items` must be one too. The source accepts more than that. A list or string schema that does not contain `"type"` returns True at src/validator.py:15-20. A non-dict sub-schema that is never consulted does not matter there: `items` when the data is not a list or is empty, the `properties` values when the data is not a dict or after an earlier property failed. The schema of an absent property is only asked `'required' in`, which also works on a list or string. The model does not cover these inputs; the other non-dict schemas make the source raise a TypeError or AttributeError, which the model does not reproduce either.
- RoundTrip.RoundTrip: it is proved for the layout `Print` writes: `", "` and `": "` between tokens and no other whitespace, with only `\"`, `\\` and, for surrogate code units, `\u` escapes. Other layouts of the same value, such as `{"a":1}`, `[ 1 ]`, newlines or indentation between tokens, or a string spelled with `\n` or `\u0041`, are covered only by the token-level lemmas (`LexerProps.SpaceThen`, `LexerProps.SingleEscape`, `LexerProps.UnicodeEscape`) and not by an all-inputs parse lemma.
- ValidatorVectors.ExampleAccepted: the description of examples/example_usage.py:13-27 is written as the value the parser is meant to return for it; no lemma parses that indented text.
- Validator.Truthy: it treats a fractional `required` value as true when its mantissa has a nonzero digit. It ignores a float underflow to `0.0`.
- ParserSpec.ParseValue, ParserSpec.ParseObject and ParserSpec.ParseArray: they state in their own contracts only that the cursor advances. What they compute is stated by `ValueDispatch`, `TrailingInput`, the well-formedness lemmas and `RoundTrip.RoundTrip`.
- Parser-level errors: they carry no position. This covers empty input, trailing tokens, an expected value and a broken object or array structure, as in `raise JSONSyntaxError(message)` at src/parser.py:21, 28 and 43.
