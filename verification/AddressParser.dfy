/** Parsing of line addresses, and their printed form.

  The functions say what tokens parse to; the class consumes a token stream and goes back to
  where it started when it fails. */
module AddressParsing {
  import opened Outcomes
  import opened Characters
  import opened Tokens
  import opened Lexing
  import opened Numbers
  import opened TokenStreams
  import opened Addresses

  predicate IsSymbol(token: Token, c: char) {
    token.kind == SymbolToken && token.lexeme == [c]
  }

  predicate BeginsAddress(token: Token) {
    token.kind == NumberToken || (token.kind == SymbolToken && token.lexeme in {".", "$", "+", "-"})
  }

  function ParseNumberAt(tokens: seq<Token>, i: nat): Result<nat>
    requires AreTokens(tokens) && i < |tokens|
  {
    if tokens[i].kind == NumberToken && NumberValue(tokens[i].lexeme) <= MAX_SIZE then Ok(NumberValue(tokens[i].lexeme))
    else Fail
  }

  /** A single address and the position behind it. */
  function ParseSingle(tokens: seq<Token>, i: nat): (r: Result<(Address, nat)>)
    requires AreTokens(tokens) && i < |tokens|
    ensures r.Ok? ==> i < r.value.1 < |tokens| && !r.value.0.Range?
  {
    if tokens[i].kind == NumberToken then
      var line :- ParseNumberAt(tokens, i);
      Ok((Absolute(line), i + 1))
    else if IsSymbol(tokens[i], '.') then Ok((Current, i + 1))
    else if IsSymbol(tokens[i], '$') then Ok((Last, i + 1))
    else if IsSymbol(tokens[i], '+') || IsSymbol(tokens[i], '-') then
      var distance :- ParseNumberAt(tokens, i + 1);
      Ok((Relative(IsSymbol(tokens[i], '+'), distance), i + 2))
    else Fail
  }

  /** One address or two, with a comma between them. */
  function ParsePrefix(tokens: seq<Token>, i: nat): (r: Result<(Address, nat)>)
    requires AreTokens(tokens) && i < |tokens|
    ensures r.Ok? ==> i < r.value.1 < |tokens|
  {
    var (first, next) :- ParseSingle(tokens, i);
    if tokens[next].kind == CommaToken then
      var (last, end) :- ParseSingle(tokens, next + 1);
      Ok((Range(first, last), end))
    else Ok((first, next))
  }

  /** An address that is the whole rest of the input, or the rest of its line. */
  function ParseWhole(tokens: seq<Token>, i: nat): (r: Result<(Address, nat)>)
    requires AreTokens(tokens) && i < |tokens|
  {
    var (address, next) :- ParsePrefix(tokens, i);
    var end := if tokens[next].kind == NewLineToken then next + 1 else next;
    if tokens[end].kind == EndToken then Ok((address, end)) else Fail
  }

  /** A parse method returned what the grammar says; if it failed, it went back to where it started. */
  predicate Parsed<T(==)>(expected: Result<(T, nat)>, result: Result<T>, before: nat, after: nat) {
    Agrees(expected, result, after) && (expected.Fail? ==> after == before)
  }

  class AddressParser {
    const stream: TokenStream

    constructor (stream: TokenStream)
      ensures this.stream == stream
    {
      this.stream := stream;
    }

    method Parse() returns (result: Result<Address>)
      requires stream.Valid()
      modifies stream`cache, stream`endCached, stream`position, stream.lexer.stream`position
      ensures stream.Valid()
      ensures Parsed(ParseWhole(stream.tokens, old(stream.position)), result, old(stream.position), stream.position)
    {
      var mark := stream.position;
      result := ParseToEnd();
      if result.Fail? {
        var back := stream.Rewind(mark);
        assert back.Ok?;
      }
    }

    method ParseToEnd() returns (result: Result<Address>)
      requires stream.Valid()
      modifies stream`cache, stream`endCached, stream`position, stream.lexer.stream`position
      ensures stream.Valid() && old(stream.position) <= stream.position
      ensures Agrees(ParseWhole(stream.tokens, old(stream.position)), result, stream.position)
    {
      hide AreTokens, TokenStream.Valid, ParsePrefix;
      stream.Standing();
      var address :- ParsePrefixAddress();
      var next := stream.Peek(0);
      if next.kind == NewLineToken {
        var _ := stream.Consume();
      }
      var last := stream.Peek(0);
      return if last.kind == EndToken then Ok(address) else Fail;
    }

    method ParsePrefixAddress() returns (result: Result<Address>)
      requires stream.Valid()
      modifies stream`cache, stream`endCached, stream`position, stream.lexer.stream`position
      ensures stream.Valid()
      ensures Parsed(ParsePrefix(stream.tokens, old(stream.position)), result, old(stream.position), stream.position)
    {
      var mark := stream.position;
      result := ParseOneOrTwo();
      if result.Fail? {
        var back := stream.Rewind(mark);
        assert back.Ok?;
      }
    }

    method ParseOneOrTwo() returns (result: Result<Address>)
      requires stream.Valid()
      modifies stream`cache, stream`endCached, stream`position, stream.lexer.stream`position
      ensures stream.Valid() && old(stream.position) <= stream.position
      ensures Agrees(ParsePrefix(stream.tokens, old(stream.position)), result, stream.position)
    {
      hide AreTokens, TokenStream.Valid, ParseSingle;
      stream.Standing();
      var first :- ParseSingleAddress();
      var next := stream.Peek(0);
      if next.kind == CommaToken {
        var _ := stream.Consume();
        var last :- ParseSingleAddress();
        return Ok(Range(first, last));
      }
      return Ok(first);
    }

    method ParseSingleAddress() returns (result: Result<Address>)
      requires stream.Valid()
      modifies stream`cache, stream`endCached, stream`position, stream.lexer.stream`position
      ensures stream.Valid() && old(stream.position) <= stream.position
      ensures Agrees(ParseSingle(stream.tokens, old(stream.position)), result, stream.position)
    {
      hide TokenStream.Valid, NumberValue;
      var token := stream.Consume();
      if token.kind == NumberToken {
        var line :- ParseNumber(token.lexeme);
        return Ok(Absolute(line));
      }
      if IsSymbol(token, '.') {
        return Ok(Current);
      }
      if IsSymbol(token, '$') {
        return Ok(Last);
      }
      if IsSymbol(token, '+') || IsSymbol(token, '-') {
        var distance := stream.Consume();
        if distance.kind != NumberToken {
          return Fail;
        }
        var number :- ParseNumber(distance.lexeme);
        return Ok(Relative(IsSymbol(token, '+'), number));
      }
      return Fail;
    }
  }
}
