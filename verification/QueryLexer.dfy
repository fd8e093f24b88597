/**
 The query lexer of `src/query.rs`. Brackets keep whitespace inside a token, double quotes
 do too, and tokens of some qualifiers are taken literally.
 */
module QueryLexer {
  import opened Common

  datatype LexError = UseDoubleQuotes | Unbalanced | UnclosedQuote | UnclosedDelimiter

  /** Unicode whitespace. */
  predicate IsWhitespace(c: char) {
    var u := c as int;
    || 0x09 <= u <= 0x0d || u == 0x20 || u == 0x85 || u == 0xa0 || u == 0x1680 || 0x2000 <= u <= 0x200a
    || u == 0x2028 || u == 0x2029 || u == 0x202f || u == 0x205f || u == 0x3000
  }

  /** The 25 characters with the Unicode property White_Space. */
  lemma WhitespaceExactly(c: char)
    ensures IsWhitespace(c) <==>
            c as int in {0x0009, 0x000a, 0x000b, 0x000c, 0x000d, 0x0020, 0x0085, 0x00a0, 0x1680, 0x2000, 0x2001, 0x2002, 0x2003,
                         0x2004, 0x2005, 0x2006, 0x2007, 0x2008, 0x2009, 0x200a, 0x2028, 0x2029, 0x202f, 0x205f, 0x3000}
  {
  }

  predicate StartsWith(s: string, prefix: string) { prefix <= s }

  predicate EndsWith(s: string, suffix: string) {
    |s| >= |suffix| && s[|s| - |suffix|..] == suffix
  }

  /** Whether brackets in the rest of a token mean nothing. */
  predicate IsLiteral(token: string, literalFiles: bool) {
    || StartsWith(token, "operator:") || StartsWith(token, "text:") || StartsWith(token, "x:")
    || (literalFiles && StartsWith(token, "file:"))
  }

  /** The open brackets after one more character, the innermost last; fails on a wrong closer. */
  function Bracket(stack: seq<char>, token: string, c: char): Option<seq<char>> {
    if c == '(' || c == '[' || c == '{' then Some(stack + [c])
    else if c == '<' && '{' !in stack && !EndsWith(token, "operator") && !EndsWith(token, "operator<") then Some(stack + [c])
    else if c == ')' || c == ']' || c == '}' then
      var expected := if c == ')' then '(' else if c == ']' then '[' else '{';
      if stack != [] && stack[|stack| - 1] == expected then Some(stack[..|stack| - 1]) else None
    else if c == '>' && !EndsWith(token, "-") && stack != [] && stack[|stack| - 1] == '<' then Some(stack[..|stack| - 1])
    else Some(stack)
  }

  /** The brackets after a character outside quotes, or the error it is. */
  function Unquoted(stack: seq<char>, token: string, c: char, literalFiles: bool): Result<seq<char>, LexError> {
    if c == '\'' && (token == "" || EndsWith(token, ":")) then Err(UseDoubleQuotes)
    else if IsLiteral(token, literalFiles) then Ok(stack)
    else
      var next := Bracket(stack, token, c);
      if next.None? then Err(Unbalanced) else Ok(next.value)
  }

  datatype State = State(tokens: seq<string>, token: string, stack: seq<char>, quoted: bool)

  function Flush(tokens: seq<string>, token: string): seq<string> {
    if token == "" then tokens else tokens + [token]
  }

  /** What lexing the rest of the input leads to. */
  function LexFrom(input: string, st: State, literalFiles: bool): Result<seq<string>, LexError> {
    if input == "" then
      if st.quoted then Err(UnclosedQuote)
      else if st.stack != [] then Err(UnclosedDelimiter)
      else Ok(Flush(st.tokens, st.token))
    else
      var c, rest := input[0], input[1..];
      if st.quoted then
        if c == '"' then LexFrom(rest, st.(quoted := false), literalFiles)
        else if c == '\\' && rest != "" && (rest[0] == '"' || rest[0] == '\\') then
          LexFrom(rest[1..], st.(token := st.token + [rest[0]]), literalFiles)
        else LexFrom(rest, st.(token := st.token + [c]), literalFiles)
      else if c == '"' then LexFrom(rest, st.(quoted := true), literalFiles)
      else
        var next := Unquoted(st.stack, st.token, c, literalFiles);
        if next.Err? then Err(next.error)
        else if IsWhitespace(c) && next.value == [] then
          LexFrom(rest, State(Flush(st.tokens, st.token), "", [], false), literalFiles)
        else LexFrom(rest, st.(token := st.token + [c], stack := next.value), literalFiles)
  }

  const START := State([], "", [], false)

  method Lex(input: string, literalFiles: bool) returns (r: Result<seq<string>, LexError>)
    ensures r == LexFrom(input, START, literalFiles)
  {
    hide Unquoted, Bracket, IsLiteral;
    var result: seq<string> := [];
    var token: string := "";
    var stack: seq<char> := [];
    var quoted := false;
    var i := 0;
    assert input[0..] == input;
    while i < |input|
      invariant 0 <= i <= |input|
      invariant LexFrom(input, START, literalFiles) == LexFrom(input[i..], State(result, token, stack, quoted), literalFiles)
    {
      var c := input[i];
      assert input[i..][1..] == input[i + 1..];
      i := i + 1;
      if quoted {
        if c == '"' {
          quoted := false;
        } else if c == '\\' && i < |input| && (input[i] == '"' || input[i] == '\\') {
          assert input[i..][1..] == input[i + 1..];
          token := token + [input[i]];
          i := i + 1;
        } else {
          token := token + [c];
        }
        continue;
      }
      if c == '"' {
        quoted := true;
        continue;
      }
      var next := Delimit(stack, token, c, literalFiles);
      if next.Err? { return Err(next.error); }
      stack := next.value;
      if IsWhitespace(c) && stack == [] {
        if token != "" {
          result := result + [token];
          token := "";
        }
      } else {
        token := token + [c];
      }
    }
    assert input[i..] == "";
    if quoted { return Err(UnclosedQuote); }
    if stack != [] { return Err(UnclosedDelimiter); }
    if token != "" { result := result + [token]; }
    return Ok(result);
  }

  /** The part of a turn that looks at apostrophes and brackets. */
  method Delimit(stack: seq<char>, token: string, c: char, literalFiles: bool) returns (r: Result<seq<char>, LexError>)
    ensures r == Unquoted(stack, token, c, literalFiles)
  {
    if c == '\'' && (token == "" || EndsWith(token, ":")) { return Err(UseDoubleQuotes); }
    if IsLiteral(token, literalFiles) { return Ok(stack); }
    match c
    case '(' => return Ok(stack + [c]);
    case '[' => return Ok(stack + [c]);
    case '{' => return Ok(stack + [c]);
    case '<' =>
      if '{' !in stack && !EndsWith(token, "operator") && !EndsWith(token, "operator<") { return Ok(stack + [c]); }
      return Ok(stack);
    case '>' =>
      if !EndsWith(token, "-") && |stack| > 0 && stack[|stack| - 1] == '<' { return Ok(stack[..|stack| - 1]); }
      return Ok(stack);
    case _ =>
      if c != ')' && c != ']' && c != '}' { return Ok(stack); }
      var expected := if c == ')' then '(' else if c == ']' then '[' else '{';
      if |stack| == 0 || stack[|stack| - 1] != expected { return Err(Unbalanced); }
      return Ok(stack[..|stack| - 1]);
  }

  // ----- What has been read stays -----

  /** Finished tokens stay finished, and a begun token only grows. */
  lemma {:induction false} ReadStays(input: string, st: State, literalFiles: bool)
    requires LexFrom(input, st, literalFiles).Ok?
    ensures var r := LexFrom(input, st, literalFiles).value;
            && st.tokens <= r
            && (st.token != "" ==> |r| > |st.tokens| && st.token <= r[|st.tokens|])
    decreases |input|
  {
    hide Unquoted;
    if input != "" {
      var c, rest := input[0], input[1..];
      if st.quoted {
        if c == '"' { ReadStays(rest, st.(quoted := false), literalFiles); }
        else if c == '\\' && rest != "" && (rest[0] == '"' || rest[0] == '\\') {
          ReadStays(rest[1..], st.(token := st.token + [rest[0]]), literalFiles);
        } else {
          ReadStays(rest, st.(token := st.token + [c]), literalFiles);
        }
      } else if c == '"' {
        ReadStays(rest, st.(quoted := true), literalFiles);
      } else {
        var next := Unquoted(st.stack, st.token, c, literalFiles).value;
        if IsWhitespace(c) && next == [] {
          ReadStays(rest, State(Flush(st.tokens, st.token), "", [], false), literalFiles);
        } else {
          ReadStays(rest, st.(token := st.token + [c], stack := next), literalFiles);
        }
      }
    }
  }
}
