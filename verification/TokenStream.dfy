/** The token stream: a lazy cache that behaves as a cursor over all tokens. */
module TokenStreams {
  import opened Outcomes
  import opened Tokens
  import opened Lexing

  /** What a lookahead sees: past the end, always the end token. */
  function TokenFrom(tokens: seq<Token>, index: nat): Token
    requires tokens != []
  {
    tokens[if index < |tokens| then index else |tokens| - 1]
  }

  class TokenStream {
    const lexer: Lexer
    var cache: seq<Token>
    var position: nat
    var endCached: bool

    /** What tokenizing the whole input at once gives. */
    ghost const tokens: seq<Token>

    /** The cache is a prefix of all tokens, and the lexer stands where the rest begins. */
    ghost predicate Valid()
      reads this, lexer.stream
    {
      && lexer.stream.Valid()
      && AreTokens(tokens)
      && |cache| <= |tokens| && cache == tokens[..|cache|]
      && endCached == (|cache| == |tokens|)
      && (!endCached ==>
            AllTokens(lexer.stream.characters, lexer.stream.endLocation, lexer.stream.position) == tokens[|cache|..])
      && position <= |cache| && position < |tokens|
    }

    constructor (lexer: Lexer)
      requires lexer.stream.Valid()
      ensures Valid() && position == 0 && this.lexer == lexer
      ensures tokens == AllTokens(lexer.stream.characters, lexer.stream.endLocation, lexer.stream.position)
    {
      this.lexer := lexer;
      cache, position, endCached := [], 0, false;
      tokens := AllTokens(lexer.stream.characters, lexer.stream.endLocation, lexer.stream.position);
    }

    /** The stream always stands at a token. */
    lemma {:induction false} Standing()
      requires Valid()
      ensures AreTokens(tokens) && position < |tokens|
    {
    }

    /** Caches tokens up to an index, or all of them. */
    method Ensure(index: nat)
      requires Valid()
      modifies this`cache, this`endCached, lexer.stream`position
      ensures Valid() && (index < |cache| || endCached)
    {
      hide TokenAt, TokenEnd, Skipped, AllTokens;
      while |cache| <= index && !endCached
        invariant Valid()
        decreases |tokens| - |cache|
      {
        CacheGrows(lexer.stream.characters, lexer.stream.endLocation, lexer.stream.position, cache, tokens);
        var token := lexer.Next();
        if token.kind == EndToken {
          endCached := true;
        }
        cache := cache + [token];
      }
    }

    method Peek(lookahead: nat) returns (token: Token)
      requires Valid()
      modifies this`cache, this`endCached, lexer.stream`position
      ensures Valid() && AreTokens(tokens) && position < |tokens|
      ensures token == TokenFrom(tokens, position + lookahead)
    {
      hide AllTokens;
      Ensure(position + lookahead);
      if position + lookahead < |cache| {
        return cache[position + lookahead];
      }
      return cache[|cache| - 1];
    }

    /** Takes a token; the end token can be taken any number of times. */
    method Consume() returns (token: Token)
      requires Valid()
      modifies this`cache, this`endCached, this`position, lexer.stream`position
      ensures Valid() && AreTokens(tokens) && old(position) < |tokens| && position < |tokens|
      ensures token == tokens[old(position)] && (token.kind != EndToken ==> token.lexeme != "")
      ensures position == if token.kind == EndToken then old(position) else old(position) + 1
    {
      hide AllTokens;
      Ensure(position);
      token := cache[position];
      if token.kind != EndToken {
        position := position + 1;
      }
    }

    method AtEnd() returns (end: bool)
      requires Valid()
      modifies this`cache, this`endCached, lexer.stream`position
      ensures Valid() && end == (position == |tokens| - 1)
    {
      var token := Peek(0);
      return token.kind == EndToken;
    }

    /** Goes back to an earlier position; going forward is refused. */
    method Rewind(target: nat) returns (result: Result<()>)
      requires Valid()
      modifies this`position
      ensures Valid() && result.Ok? == (target <= old(position))
      ensures position == if result.Ok? then target else old(position)
    {
      if target > position || target > |cache| {
        return Fail;
      }
      position := target;
      return Ok(());
    }
  }

  /** The token that comes next is the first one that is not cached yet. */
  lemma {:induction false} CacheGrows(characters: seq<Character>, end: SourceLocation, position: nat,
                                      cache: seq<Token>, tokens: seq<Token>)
    requires position <= |characters| && |cache| < |tokens| && cache == tokens[..|cache|]
    requires AllTokens(characters, end, position) == tokens[|cache|..]
    ensures var start := Skipped(characters, position);
      if start == |characters| then |tokens| == |cache| + 1 && tokens == cache + [TheEnd(end)]
      else
        && |tokens| > |cache| + 1
        && tokens[..|cache| + 1] == cache + [TokenAt(characters, start)]
        && AllTokens(characters, end, TokenEnd(characters, start)) == tokens[|cache| + 1..]
  {
    hide TokenAt, TokenEnd, Skipped;
    var start := Skipped(characters, position);
    assert tokens == cache + tokens[|cache|..];
    if start < |characters| {
      assert tokens[|cache|..] ==
             [TokenAt(characters, start)] + AllTokens(characters, end, TokenEnd(characters, start));
      hide *;
      assert tokens[|cache|..][1..] == tokens[|cache| + 1..];
    }
  }
}
