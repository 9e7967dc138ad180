/** `JSONParser` of src/parser.py: pulls tokens one at a time from a fresh
    `JSONLexer` and keeps the nesting depth in a field.  Every method is proved
    to return what the matching reference function of module ParserSpec
    returns; on success the depth field is back where it was. */
module Parser {
  import opened Exceptions
  import opened Values
  import opened LexerSpec
  import opened ParserSpec
  import opened Lexer

  class JSONParser {
    const maxDepth: int
    var currentDepth: int

    /** `max_depth or MAX_DEPTH`: an omitted or zero limit means 1000. */
    constructor (maxDepthArg: Option<int>)
      ensures maxDepth == if maxDepthArg.None? || maxDepthArg.value == 0 then MAX_DEPTH else maxDepthArg.value
      ensures maxDepth != 0
      ensures currentDepth == 0
    {
      maxDepth := if maxDepthArg.None? || maxDepthArg.value == 0 then MAX_DEPTH else maxDepthArg.value;
      currentDepth := 0;
    }

    /** `parse`: a fresh lexer and a depth reset on every call, so the outcome
        depends on the text and the limit only. */
    method Parse(text: string) returns (r: Result<Value>)
      modifies this
      ensures r == ParserSpec.Parse(text, maxDepth)
      ensures r.Ok? ==> currentDepth == 0
    {
      var lexer := new JSONLexer(text);
      currentDepth := 0;
      var token := lexer.GetNextToken();
      if token.Err? {
        return Err(token.error);
      }
      if token.value.None? {
        // empty input
        return Err(Malformed);
      }
      var result := ParseValue(lexer, token.value.value);
      if result.Err? {
        return Err(result.error);
      }
      var next := lexer.GetNextToken();
      if next.Err? {
        return Err(next.error);
      }
      if next.value.Some? {
        // trailing characters
        return Err(Malformed);
      }
      return Ok(result.value);
    }

    /** `_parse_value`: dispatch on the kind of the token already read. */
    method ParseValue(lexer: JSONLexer, token: Token) returns (r: Result<Value>)
      requires lexer.Valid()
      modifies this, lexer
      ensures lexer.Valid()
      ensures r == Payload(ParserSpec.ParseValue(lexer.text, old(lexer.position), token, old(currentDepth), maxDepth))
      ensures r.Ok? ==> lexer.position == ParserSpec.ParseValue(lexer.text, old(lexer.position), token, old(currentDepth), maxDepth).value.1
      ensures r.Ok? ==> currentDepth == old(currentDepth)
      decreases |lexer.text| - lexer.position, 1
    {
      match token
      case TPunct(LBrace, _) =>
        r := ParseObject(lexer);
      case TPunct(LBracket, _) =>
        r := ParseArray(lexer);
      case TPunct(_, _) =>
        r := Err(Malformed);
      case TString(s) =>
        r := Ok(Str(s));
      case TNumber(Integer(i)) =>
        r := Ok(Int(i));
      case TNumber(Fractional(l)) =>
        r := Ok(Frac(l));
      case TTrue =>
        r := Ok(Bool(true));
      case TFalse =>
        r := Ok(Bool(false));
      case TNull =>
        r := Ok(Null);
    }

    /** Reads the next token where the body of an object or array goes on; end
        of input there is an unterminated object or array. */
    method NextInBody(lexer: JSONLexer) returns (r: Result<Token>)
      requires lexer.Valid()
      modifies lexer
      ensures lexer.Valid()
      ensures r.Ok? <==> NextToken(lexer.text, old(lexer.position)).Ok? && NextToken(lexer.text, old(lexer.position)).value.0.Some?
      ensures r.Ok? ==> NextToken(lexer.text, old(lexer.position)) == Ok((Some(r.value), lexer.position))
      ensures r.Err? ==> r.error == if NextToken(lexer.text, old(lexer.position)).Err?
                                   then NextToken(lexer.text, old(lexer.position)).error else Malformed
    {
      var token := lexer.GetNextToken();
      if token.Err? {
        return Err(token.error);
      }
      if token.value.None? {
        return Err(Malformed);
      }
      return Ok(token.value.value);
    }

    /** The object body (reconstructed): the depth guard, then string keys, `:`,
        values and `,` up to the closing `}`. */
    method ParseObject(lexer: JSONLexer) returns (r: Result<Value>)
      requires lexer.Valid()
      modifies this, lexer
      ensures lexer.Valid()
      ensures r == Payload(ParserSpec.ParseObject(lexer.text, old(lexer.position), old(currentDepth), maxDepth))
      ensures r.Ok? ==> lexer.position == ParserSpec.ParseObject(lexer.text, old(lexer.position), old(currentDepth), maxDepth).value.1
      ensures r.Ok? ==> currentDepth == old(currentDepth)
      decreases |lexer.text| - lexer.position, 0
    {
      if currentDepth >= maxDepth {
        return Err(TooDeep);
      }
      currentDepth := currentDepth + 1;
      var result: seq<(JString, Value)> := [];
      var token := NextInBody(lexer);
      if token.Err? {
        return Err(token.error);
      }
      if IsPunct(token.value, RBrace) {
        currentDepth := currentDepth - 1;
        return Ok(Obj(result));
      }
      var key := token.value;
      while true
        invariant lexer.Valid() && old(lexer.position) < lexer.position
        invariant currentDepth == old(currentDepth) + 1
        invariant ParseMembers(lexer.text, lexer.position, key, currentDepth, maxDepth, result)
               == ParserSpec.ParseObject(lexer.text, old(lexer.position), old(currentDepth), maxDepth)
        decreases |lexer.text| - lexer.position
      {
        if !key.TString? {
          // an object key must be a string
          return Err(Malformed);
        }
        token := NextInBody(lexer);
        if token.Err? {
          return Err(token.error);
        }
        if !IsPunct(token.value, Colon) {
          return Err(Malformed);
        }
        token := NextInBody(lexer);
        if token.Err? {
          return Err(token.error);
        }
        var value := ParseValue(lexer, token.value);
        if value.Err? {
          return Err(value.error);
        }
        result := Put(result, key.s, value.value);
        token := NextInBody(lexer);
        if token.Err? {
          return Err(token.error);
        }
        if IsPunct(token.value, RBrace) {
          currentDepth := currentDepth - 1;
          return Ok(Obj(result));
        }
        if !IsPunct(token.value, Comma) {
          return Err(Malformed);
        }
        token := NextInBody(lexer);
        if token.Err? {
          return Err(token.error);
        }
        key := token.value;
      }
    }

    /** The array body (reconstructed): the depth guard, then values separated by
        `,` up to the closing `]`. */
    method ParseArray(lexer: JSONLexer) returns (r: Result<Value>)
      requires lexer.Valid()
      modifies this, lexer
      ensures lexer.Valid()
      ensures r == Payload(ParserSpec.ParseArray(lexer.text, old(lexer.position), old(currentDepth), maxDepth))
      ensures r.Ok? ==> lexer.position == ParserSpec.ParseArray(lexer.text, old(lexer.position), old(currentDepth), maxDepth).value.1
      ensures r.Ok? ==> currentDepth == old(currentDepth)
      decreases |lexer.text| - lexer.position, 0
    {
      if currentDepth >= maxDepth {
        return Err(TooDeep);
      }
      currentDepth := currentDepth + 1;
      var result: seq<Value> := [];
      var token := NextInBody(lexer);
      if token.Err? {
        return Err(token.error);
      }
      if IsPunct(token.value, RBracket) {
        currentDepth := currentDepth - 1;
        return Ok(Arr(result));
      }
      var element := token.value;
      while true
        invariant lexer.Valid() && old(lexer.position) < lexer.position
        invariant currentDepth == old(currentDepth) + 1
        invariant ParseElements(lexer.text, lexer.position, element, currentDepth, maxDepth, result)
               == ParserSpec.ParseArray(lexer.text, old(lexer.position), old(currentDepth), maxDepth)
        decreases |lexer.text| - lexer.position
      {
        var value := ParseValue(lexer, element);
        if value.Err? {
          return Err(value.error);
        }
        result := result + [value.value];
        token := NextInBody(lexer);
        if token.Err? {
          return Err(token.error);
        }
        if IsPunct(token.value, RBracket) {
          currentDepth := currentDepth - 1;
          return Ok(Arr(result));
        }
        if !IsPunct(token.value, Comma) {
          return Err(Malformed);
        }
        token := NextInBody(lexer);
        if token.Err? {
          return Err(token.error);
        }
        element := token.value;
      }
    }
  }

  /** Two parses of the same text on one parser have the same outcome: the
      depth left behind by the first (even by a failed one) does not leak. */
  method ParseTwice(parser: JSONParser, text: string) returns (first: Result<Value>, second: Result<Value>)
    modifies parser
    ensures first == second
  {
    first := parser.Parse(text);
    second := parser.Parse(text);
  }
}
