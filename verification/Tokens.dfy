/**
 The token trees that the bundler's rewriter reads, and what it asks about
 the tokens around one of them.

 The lexer is not part of this model. Only the spans that the rewriter reads
 are kept: those of identifiers and of groups. A doc comment lexes to a
 synthetic attribute whose tokens all carry the span of the comment, and
 `Nested` admits it.
 */
module Tokens {
  import opened Common

  datatype Delimiter = Parenthesis | Bracket | Brace

  /** A token, with the half-open byte range it takes in the file. */
  datatype Token =
    | Ident(name: string, start: nat, end: nat)
    | Punct(character: char, joint: bool)
    | Literal(text: string)
    | Group(delimiter: Delimiter, tokens: seq<Token>, start: nat, end: nat)

  predicate IsIdent(tokens: seq<Token>, index: nat) {
    index < |tokens| && tokens[index].Ident?
  }

  predicate IsPunct(tokens: seq<Token>, index: nat, character: char) {
    index < |tokens| && tokens[index].Punct? && tokens[index].character == character
  }

  /** Whether two joined colons stand at `tokens[index]`. */
  predicate IsPathSeparator(tokens: seq<Token>, index: nat) {
    IsPunct(tokens, index, ':') && tokens[index].joint && IsPunct(tokens, index + 1, ':')
  }

  /** Whether `tokens[index]` is a later segment of a path, or a field. */
  predicate FollowsPathOrField(tokens: seq<Token>, index: nat) {
    index >= 1 && ((index >= 2 && IsPathSeparator(tokens, index - 2)) || IsPunct(tokens, index - 1, '.'))
  }

  predicate HoldsOneLiteral(token: Token) {
    token.Group? && |token.tokens| == 1 && token.tokens[0].Literal?
  }

  /** The one plain string that a macro call at `tokens[index]` has as argument, and where the call ends. */
  function MacroLiteral(tokens: seq<Token>, index: nat): Result<Option<(string, nat)>, string> {
    if !IsPunct(tokens, index + 1, '!') || index + 2 >= |tokens| || !HoldsOneLiteral(tokens[index + 2]) then Ok(None)
    else
      var text := tokens[index + 2].tokens[0].text;
      if |text| < 2 || text[0] != '"' || text[|text| - 1] != '"' then Ok(None)
      else
        var value := text[1..|text| - 1];
        if '\\' in value then Err(text) else Ok(Some((value, tokens[index + 2].end)))
  }

  /** After `tokens[index]` come `!` and a group that holds one literal. */
  ghost predicate CallsWith(tokens: seq<Token>, index: nat, text: string) {
    && index + 2 < |tokens|
    && tokens[index + 1].Punct? && tokens[index + 1].character == '!'
    && tokens[index + 2].Group? && tokens[index + 2].tokens == [Literal(text)]
  }

  ghost function Quoted(value: string): string { "\"" + value + "\"" }

  /** A call with one plain string gives the string and the end of the call; one with an escape is an error. */
  lemma MacroLiteralIsExact(tokens: seq<Token>, index: nat, value: string, end: nat)
    ensures MacroLiteral(tokens, index) == Ok(Some((value, end))) <==>
      CallsWith(tokens, index, Quoted(value)) && tokens[index + 2].end == end && '\\' !in value
    ensures MacroLiteral(tokens, index) == Err(Quoted(value)) <==> CallsWith(tokens, index, Quoted(value)) && '\\' in value
    ensures MacroLiteral(tokens, index).Err? ==>
      exists other :: CallsWith(tokens, index, Quoted(other)) && '\\' in other && MacroLiteral(tokens, index).error == Quoted(other)
  {
    if index + 2 < |tokens| && HoldsOneLiteral(tokens[index + 2]) {
      var inner := tokens[index + 2].tokens;
      assert inner == [inner[0]];
      var text := inner[0].text;
      if |text| >= 2 && text[0] == '"' && text[|text| - 1] == '"' {
        assert text == Quoted(text[1..|text| - 1]);
      }
    }
    assert Quoted(value)[1..|value| + 1] == value && |Quoted(value)| == |value| + 2;
  }

  /**
   From `tokens[index]` on, identifiers and groups take disjoint ranges in
   order between `low` and `high`, and the tokens of a group sit inside it.
   */
  ghost predicate Nested(tokens: seq<Token>, index: nat, low: nat, high: nat)
    decreases tokens, |tokens| - index
  {
    if index >= |tokens| then low <= high
    else match tokens[index]
      case Ident(_, start, end) =>
        low <= start <= end && Nested(tokens, index + 1, end, high)
      case Group(_, inner, start, end) =>
        low <= start <= end && Nested(inner, 0, start, end) && Nested(tokens, index + 1, end, high)
      case _ =>
        Nested(tokens, index + 1, low, high)
  }

  /** The first position that `tokens[index]` may take. */
  ghost function Floor(tokens: seq<Token>, index: nat, high: nat): nat
    requires HasSpan(tokens, index)
  {
    if index == |tokens| then high else tokens[index].start
  }

  /** Whether a token with a span stands at `index`, or none does. */
  ghost predicate HasSpan(tokens: seq<Token>, index: nat) {
    index == |tokens| || (index < |tokens| && (tokens[index].Ident? || tokens[index].Group?))
  }

  /** Where a span of tokens can end without cutting a call of `env!` in two. */
  ghost predicate Boundary(tokens: seq<Token>, index: nat) {
    || index == |tokens|
    || IsIdent(tokens, index)
    || (index < |tokens| && tokens[index].Group? && !HoldsOneLiteral(tokens[index]))
  }

  /** Nesting holds from every later token with a span on, and from its own position. */
  lemma {:induction false} NestedFrom(tokens: seq<Token>, index: nat, later: nat, low: nat, high: nat)
    requires Nested(tokens, index, low, high) && index <= later && HasSpan(tokens, later)
    ensures low <= Floor(tokens, later, high) <= high
    ensures Nested(tokens, later, Floor(tokens, later, high), high)
    ensures later < |tokens| ==> tokens[later].end <= high && Nested(tokens, later + 1, tokens[later].end, high)
    decreases later - index
  {
    if index == later {
      if later < |tokens| {
        NestedBounds(tokens, later + 1, tokens[later].end, high);
      }
    } else {
      var next := match tokens[index]
        case Ident(_, _, end) => end
        case Group(_, _, _, end) => end
        case _ => low;
      NestedFrom(tokens, index + 1, later, next, high);
    }
  }

  lemma {:induction false} NestedBounds(tokens: seq<Token>, index: nat, low: nat, high: nat)
    requires Nested(tokens, index, low, high)
    ensures low <= high
    decreases |tokens| - index
  {
    if index < |tokens| {
      var next := match tokens[index]
        case Ident(_, _, end) => end
        case Group(_, _, _, end) => end
        case _ => low;
      NestedBounds(tokens, index + 1, next, high);
    }
  }
}
