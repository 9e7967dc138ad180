/** Reference definition of the recursive-descent parser of src/parser.py as
    pure functions over the text, the cursor position after the last token read,
    and the nesting depth.  The object and array bodies, which the source leaves
    unwritten, follow the grammar of sections 4 and 5 of RFC 8259. */
module ParserSpec {
  import opened Exceptions
  import opened Values
  import opened LexerSpec
  import LexerProps

  /** `JSONParser.MAX_DEPTH` */
  const MAX_DEPTH: int := 1000

  /** The errors the parser itself raises are SyntaxErrors without a position. */
  const Malformed: Error := Syntax(None, None)

  predicate IsPunct(t: Token, k: Punct)
  {
    t.TPunct? && t.kind == k
  }

  /** `_parse_value`, given the token already read; `pos` is the cursor after it. */
  function ParseValue(text: string, pos: nat, token: Token, depth: int, maxDepth: int): (r: Result<(Value, nat)>)
    requires pos <= |text|
    ensures r.Ok? ==> pos <= r.value.1 <= |text|
    decreases |text| - pos, 1
  {
    match token
    case TPunct(LBrace, _) => ParseObject(text, pos, depth, maxDepth)
    case TPunct(LBracket, _) => ParseArray(text, pos, depth, maxDepth)
    case TPunct(_, _) => Err(Malformed)
    case TString(s) => Ok((Str(s), pos))
    case TNumber(Integer(i)) => Ok((Int(i), pos))
    case TNumber(Fractional(l)) => Ok((Frac(l), pos))
    case TTrue => Ok((Bool(true), pos))
    case TFalse => Ok((Bool(false), pos))
    case TNull => Ok((Null, pos))
  }

  /** The object body after `{`: the depth guard, then `}` or the first member. */
  function ParseObject(text: string, pos: nat, depth: int, maxDepth: int): (r: Result<(Value, nat)>)
    requires pos <= |text|
    ensures r.Ok? ==> pos < r.value.1 <= |text|
    decreases |text| - pos, 0
  {
    if depth >= maxDepth then Err(TooDeep)
    else match NextToken(text, pos)
      case Err(e) => Err(e)
      case Ok((None, _)) => Err(Malformed)
      case Ok((Some(t), q)) =>
        if IsPunct(t, RBrace) then Ok((Obj([]), q))
        else ParseMembers(text, q, t, depth + 1, maxDepth, [])
  }

  /** One round of the member loop: `key` is the token read where a key belongs,
      `acc` the entries so far; `depth` is the level inside the object. */
  function ParseMembers(text: string, pos: nat, key: Token, depth: int, maxDepth: int,
                        acc: seq<(JString, Value)>): (r: Result<(Value, nat)>)
    requires pos <= |text|
    ensures r.Ok? ==> pos < r.value.1 <= |text|
    decreases |text| - pos, 1
  {
    if !key.TString? then Err(Malformed)
    else match NextToken(text, pos)
      case Err(e) => Err(e)
      case Ok((None, _)) => Err(Malformed)
      case Ok((Some(colon), q1)) =>
        if !IsPunct(colon, Colon) then Err(Malformed)
        else match NextToken(text, q1)
          case Err(e) => Err(e)
          case Ok((None, _)) => Err(Malformed)
          case Ok((Some(t), q2)) =>
            match ParseValue(text, q2, t, depth, maxDepth)
            case Err(e) => Err(e)
            case Ok((v, q3)) => AfterMember(text, q3, depth, maxDepth, Put(acc, key.s, v))
  }

  /** The end of a round of the member loop, after the value: `}` closes the
      object with `members`, `,` and the next token start the next round. */
  function AfterMember(text: string, pos: nat, depth: int, maxDepth: int, members: seq<(JString, Value)>): (r: Result<(Value, nat)>)
    requires pos <= |text|
    ensures r.Ok? ==> pos < r.value.1 <= |text|
    decreases |text| - pos, 0
  {
    match NextToken(text, pos)
    case Err(e) => Err(e)
    case Ok((None, _)) => Err(Malformed)
    case Ok((Some(sep), q4)) =>
      if IsPunct(sep, RBrace) then Ok((Obj(members), q4))
      else if !IsPunct(sep, Comma) then Err(Malformed)
      else match NextToken(text, q4)
        case Err(e) => Err(e)
        case Ok((None, _)) => Err(Malformed)
        case Ok((Some(next), q5)) => ParseMembers(text, q5, next, depth, maxDepth, members)
  }

  /** The array body after `[`: the depth guard, then `]` or the first element. */
  function ParseArray(text: string, pos: nat, depth: int, maxDepth: int): (r: Result<(Value, nat)>)
    requires pos <= |text|
    ensures r.Ok? ==> pos < r.value.1 <= |text|
    decreases |text| - pos, 0
  {
    if depth >= maxDepth then Err(TooDeep)
    else match NextToken(text, pos)
      case Err(e) => Err(e)
      case Ok((None, _)) => Err(Malformed)
      case Ok((Some(t), q)) =>
        if IsPunct(t, RBracket) then Ok((Arr([]), q))
        else ParseElements(text, q, t, depth + 1, maxDepth, [])
  }

  /** One round of the element loop: `token` starts the next element. */
  function ParseElements(text: string, pos: nat, token: Token, depth: int, maxDepth: int,
                         acc: seq<Value>): (r: Result<(Value, nat)>)
    requires pos <= |text|
    ensures r.Ok? ==> pos < r.value.1 <= |text|
    decreases |text| - pos, 2
  {
    match ParseValue(text, pos, token, depth, maxDepth)
    case Err(e) => Err(e)
    case Ok((v, q1)) => AfterElement(text, q1, depth, maxDepth, acc + [v])
  }

  /** The end of a round of the element loop, after the element: `]` closes
      the array with `items`, `,` and the next token start the next round. */
  function AfterElement(text: string, pos: nat, depth: int, maxDepth: int, items: seq<Value>): (r: Result<(Value, nat)>)
    requires pos <= |text|
    ensures r.Ok? ==> pos < r.value.1 <= |text|
    decreases |text| - pos, 0
  {
    match NextToken(text, pos)
    case Err(e) => Err(e)
    case Ok((None, _)) => Err(Malformed)
    case Ok((Some(sep), q2)) =>
      if IsPunct(sep, RBracket) then Ok((Arr(items), q2))
      else if !IsPunct(sep, Comma) then Err(Malformed)
      else match NextToken(text, q2)
        case Err(e) => Err(e)
        case Ok((None, _)) => Err(Malformed)
        case Ok((Some(next), q3)) => ParseElements(text, q3, next, depth, maxDepth, items)
  }

  /** `parse`: the first token (none is an error), one value, then end of input. */
  function Parse(text: string, maxDepth: int): Result<Value>
  {
    match NextToken(text, 0)
    case Err(e) => Err(e)
    case Ok((None, _)) => Err(Malformed)
    case Ok((Some(t), q)) =>
      match ParseValue(text, q, t, 0, maxDepth)
      case Err(e) => Err(e)
      case Ok((v, p)) =>
        match NextToken(text, p)
        case Err(e) => Err(e)
        case Ok((Some(_), _)) => Err(Malformed)
        case Ok((None, _)) => Ok(v)
  }

  // ------------------------------------------------------------- properties

  /** `_parse_value` returns the payload of a string, number or literal token
      unchanged, without reading further, and refuses `}`, `]`, `,` and `:`. */
  lemma {:induction false} ValueDispatch(text: string, pos: nat, token: Token, depth: int, maxDepth: int)
    requires pos <= |text|
    ensures token.TString? ==> ParseValue(text, pos, token, depth, maxDepth) == Ok((Str(token.s), pos))
    ensures token.TNumber? && token.n.Integer? ==> ParseValue(text, pos, token, depth, maxDepth) == Ok((Int(token.n.i), pos))
    ensures token.TNumber? && token.n.Fractional? ==> ParseValue(text, pos, token, depth, maxDepth) == Ok((Frac(token.n.lexeme), pos))
    ensures token == TTrue ==> ParseValue(text, pos, token, depth, maxDepth) == Ok((Bool(true), pos))
    ensures token == TFalse ==> ParseValue(text, pos, token, depth, maxDepth) == Ok((Bool(false), pos))
    ensures token == TNull ==> ParseValue(text, pos, token, depth, maxDepth) == Ok((Null, pos))
    ensures token.TPunct? && token.kind in {RBrace, RBracket, Comma, Colon} ==>
              ParseValue(text, pos, token, depth, maxDepth) == Err(Malformed)
  {
  }

  /** Input with no first token (empty or whitespace only) is a SyntaxError. */
  lemma {:induction false} EmptyInput(text: string, maxDepth: int)
    requires Span(text, 0, Whitespace) == |text|
    ensures Parse(text, maxDepth) == Err(Malformed)
  {
  }

  /** Once the first value has been read, the parse succeeds exactly when
      nothing but whitespace follows it, and then returns that value. */
  lemma {:induction false} TrailingInput(text: string, maxDepth: int, t: Token, q: nat, v: Value, p: nat)
    requires NextToken(text, 0) == Ok((Some(t), q))
    requires ParseValue(text, q, t, 0, maxDepth) == Ok((v, p))
    ensures Parse(text, maxDepth).Ok? <==> forall i :: p <= i < |text| ==> IsWhitespace(text[i])
    ensures Parse(text, maxDepth).Ok? ==> Parse(text, maxDepth).value == v
  {
    LexerProps.TokensAdvance(text, p);
  }

  /** What the parser builds passes the depth guard everywhere and has
      distinct keys in every object. */
  lemma {:induction false} ValueWellFormed(text: string, pos: nat, token: Token, depth: int, maxDepth: int)
    requires pos <= |text|
    requires ParseValue(text, pos, token, depth, maxDepth).Ok?
    ensures Fits(ParseValue(text, pos, token, depth, maxDepth).value.0, depth, maxDepth)
    ensures DictsOnly(ParseValue(text, pos, token, depth, maxDepth).value.0)
    decreases |text| - pos, 1
  {
    match token
    case TPunct(LBrace, _) => ObjectWellFormed(text, pos, depth, maxDepth);
    case TPunct(LBracket, _) => ArrayWellFormed(text, pos, depth, maxDepth);
    case _ =>
  }

  lemma {:induction false} ObjectWellFormed(text: string, pos: nat, depth: int, maxDepth: int)
    requires pos <= |text|
    requires ParseObject(text, pos, depth, maxDepth).Ok?
    ensures Fits(ParseObject(text, pos, depth, maxDepth).value.0, depth, maxDepth)
    ensures DictsOnly(ParseObject(text, pos, depth, maxDepth).value.0)
    decreases |text| - pos, 0
  {
    var (t, q) := (NextToken(text, pos).value.0.value, NextToken(text, pos).value.1);
    if !IsPunct(t, RBrace) {
      MembersWellFormed(text, q, t, depth + 1, maxDepth, []);
    }
  }

  lemma {:induction false} MembersWellFormed(text: string, pos: nat, key: Token, depth: int, maxDepth: int,
                                             acc: seq<(JString, Value)>)
    requires pos <= |text|
    requires ParseMembers(text, pos, key, depth, maxDepth, acc).Ok?
    requires depth - 1 < maxDepth && DistinctKeys(acc)
    requires forall i :: 0 <= i < |acc| ==> Fits(acc[i].1, depth, maxDepth) && DictsOnly(acc[i].1)
    ensures Fits(ParseMembers(text, pos, key, depth, maxDepth, acc).value.0, depth - 1, maxDepth)
    ensures DictsOnly(ParseMembers(text, pos, key, depth, maxDepth, acc).value.0)
    decreases |text| - pos, 1
  {
    var q1 := NextToken(text, pos).value.1;
    var (t, q2) := (NextToken(text, q1).value.0.value, NextToken(text, q1).value.1);
    ValueWellFormed(text, q2, t, depth, maxDepth);
    var (v, q3) := ParseValue(text, q2, t, depth, maxDepth).value;
    var members := Put(acc, key.s, v);
    PutDistinct(acc, key.s, v);
    assert forall i :: 0 <= i < |members| ==> Fits(members[i].1, depth, maxDepth) && DictsOnly(members[i].1);
    AfterMemberWellFormed(text, q3, depth, maxDepth, members);
  }

  lemma {:induction false} AfterMemberWellFormed(text: string, pos: nat, depth: int, maxDepth: int,
                                                 members: seq<(JString, Value)>)
    requires pos <= |text|
    requires AfterMember(text, pos, depth, maxDepth, members).Ok?
    requires depth - 1 < maxDepth && DistinctKeys(members)
    requires forall i :: 0 <= i < |members| ==> Fits(members[i].1, depth, maxDepth) && DictsOnly(members[i].1)
    ensures Fits(AfterMember(text, pos, depth, maxDepth, members).value.0, depth - 1, maxDepth)
    ensures DictsOnly(AfterMember(text, pos, depth, maxDepth, members).value.0)
    decreases |text| - pos, 0
  {
    var (sep, q4) := (NextToken(text, pos).value.0.value, NextToken(text, pos).value.1);
    if !IsPunct(sep, RBrace) {
      var (next, q5) := (NextToken(text, q4).value.0.value, NextToken(text, q4).value.1);
      MembersWellFormed(text, q5, next, depth, maxDepth, members);
    }
  }

  lemma {:induction false} ArrayWellFormed(text: string, pos: nat, depth: int, maxDepth: int)
    requires pos <= |text|
    requires ParseArray(text, pos, depth, maxDepth).Ok?
    ensures Fits(ParseArray(text, pos, depth, maxDepth).value.0, depth, maxDepth)
    ensures DictsOnly(ParseArray(text, pos, depth, maxDepth).value.0)
    decreases |text| - pos, 0
  {
    var (t, q) := (NextToken(text, pos).value.0.value, NextToken(text, pos).value.1);
    if !IsPunct(t, RBracket) {
      ElementsWellFormed(text, q, t, depth + 1, maxDepth, []);
    }
  }

  lemma {:induction false} ElementsWellFormed(text: string, pos: nat, token: Token, depth: int, maxDepth: int,
                                              acc: seq<Value>)
    requires pos <= |text|
    requires ParseElements(text, pos, token, depth, maxDepth, acc).Ok?
    requires depth - 1 < maxDepth
    requires forall i :: 0 <= i < |acc| ==> Fits(acc[i], depth, maxDepth) && DictsOnly(acc[i])
    ensures Fits(ParseElements(text, pos, token, depth, maxDepth, acc).value.0, depth - 1, maxDepth)
    ensures DictsOnly(ParseElements(text, pos, token, depth, maxDepth, acc).value.0)
    decreases |text| - pos, 2
  {
    ValueWellFormed(text, pos, token, depth, maxDepth);
    var (v, q1) := ParseValue(text, pos, token, depth, maxDepth).value;
    AfterElementWellFormed(text, q1, depth, maxDepth, acc + [v]);
  }

  lemma {:induction false} AfterElementWellFormed(text: string, pos: nat, depth: int, maxDepth: int, items: seq<Value>)
    requires pos <= |text|
    requires AfterElement(text, pos, depth, maxDepth, items).Ok?
    requires depth - 1 < maxDepth
    requires forall i :: 0 <= i < |items| ==> Fits(items[i], depth, maxDepth) && DictsOnly(items[i])
    ensures Fits(AfterElement(text, pos, depth, maxDepth, items).value.0, depth - 1, maxDepth)
    ensures DictsOnly(AfterElement(text, pos, depth, maxDepth, items).value.0)
    decreases |text| - pos, 0
  {
    var (sep, q2) := (NextToken(text, pos).value.0.value, NextToken(text, pos).value.1);
    if !IsPunct(sep, RBracket) {
      var (next, q3) := (NextToken(text, q2).value.0.value, NextToken(text, q2).value.1);
      ElementsWellFormed(text, q3, next, depth, maxDepth, items);
    }
  }

  /** A successful parse never nests deeper than the configured limit (a
      value without objects and arrays has depth 0), and its objects are dicts. */
  lemma {:induction false} ParseWithinLimit(text: string, maxDepth: int)
    requires Parse(text, maxDepth).Ok?
    ensures Depth(Parse(text, maxDepth).value) == 0 || Depth(Parse(text, maxDepth).value) <= maxDepth
    ensures DictsOnly(Parse(text, maxDepth).value)
  {
    var (t, q) := (NextToken(text, 0).value.0.value, NextToken(text, 0).value.1);
    ValueWellFormed(text, q, t, 0, maxDepth);
    FitsIffDepth(Parse(text, maxDepth).value, 0, maxDepth);
  }
}
