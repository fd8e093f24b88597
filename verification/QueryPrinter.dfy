/**
 Quoting of `src/navigation.rs` and query suggestions of `src/query.rs` against the lexer:
 exactly which lists of tokens survive being printed and read again.
 */
module QueryPrinter {
  import opened Common
  import opened QueryLexer
  import opened QueryReading

  // ----- Printing -----

  predicate IsControl(c: char) {
    c as int < 0x20 || 0x7f <= c as int <= 0x9f
  }

  /** The characters that JSON writes with an escape of its own. */
  predicate IsC0(c: char) { c as int < 0x20 }

  function Hex(n: nat): char
    requires n < 0x10
  {
    "0123456789abcdef"[n]
  }

  /** One character inside a JSON string. */
  function Escape(c: char): string {
    if c == '"' then "\\\""
    else if c == '\\' then "\\\\"
    else if !IsC0(c) then [c]
    else match c as int
         case 0x08 => "\\b"
         case 0x09 => "\\t"
         case 0x0a => "\\n"
         case 0x0c => "\\f"
         case 0x0d => "\\r"
         case u => "\\u00" + [Hex(u / 0x10), Hex(u % 0x10)]
  }

  function Escaped(name: string): string {
    if name == "" then "" else Escape(name[0]) + Escaped(name[1..])
  }

  function Json(name: string): string { "\"" + (Escaped(name) + "\"") }

  predicate NeedsQuotes(name: string) {
    exists c | c in name :: IsWhitespace(c) || IsControl(c) || c == '"' || c == '\\' || c == '`'
  }

  function Quote(name: string): string {
    if NeedsQuotes(name) then Json(name) else name
  }

  function Printed(tokens: seq<string>): string {
    if tokens == [] then ""
    else if |tokens| == 1 then Quote(tokens[0])
    else Quote(tokens[0]) + (" " + Printed(tokens[1..]))
  }

  // ----- What printed names mean as JSON -----

  function HexValue(c: char): Option<nat> {
    if '0' <= c <= '9' then Some(c as int - '0' as int)
    else if 'a' <= c <= 'f' then Some(c as int - 'a' as int + 10)
    else if 'A' <= c <= 'F' then Some(c as int - 'A' as int + 10)
    else None
  }

  /** A character of four hexadecimal digits; halves of surrogate pairs are none by themselves. */
  function FourDigits(a: char, b: char, c: char, d: char): Option<char> {
    var x :- HexValue(a);
    var y :- HexValue(b);
    var z :- HexValue(c);
    var w :- HexValue(d);
    var code := x * 0x1000 + y * 0x100 + z * 0x10 + w;
    if 0xd800 <= code < 0xe000 then None else Some(code as char)
  }

  /** What an escape with one letter means. */
  function Letter(c: char): Option<char> {
    match c
    case '"' => Some('"')
    case '\\' => Some('\\')
    case '/' => Some('/')
    case 'b' => Some(0x08 as char)
    case 'f' => Some(0x0c as char)
    case 'n' => Some(0x0a as char)
    case 'r' => Some(0x0d as char)
    case 't' => Some(0x09 as char)
    case _ => None
  }

  /** What stands between the quotes of a JSON string: section 7 of RFC 8259. */
  function Content(s: string): Option<string> {
    if s == "" then Some("")
    else if s[0] != '\\' then
      if s[0] == '"' || s[0] as int < 0x20 then None
      else
        var rest :- Content(s[1..]);
        Some([s[0]] + rest)
    else if |s| >= 6 && s[1] == 'u' then
      var c :- FourDigits(s[2], s[3], s[4], s[5]);
      var rest :- Content(s[6..]);
      Some([c] + rest)
    else if |s| >= 2 then
      var c :- Letter(s[1]);
      var rest :- Content(s[2..]);
      Some([c] + rest)
    else None
  }

  lemma EscapeShape(c: char)
    ensures var e := Escape(c);
            || (e == [c] && c != '\\' && c != '"' && c as int >= 0x20)
            || (|e| == 2 && e[0] == '\\' && e[1] != 'u' && Letter(e[1]) == Some(c))
            || (|e| == 6 && e[0] == '\\' && e[1] == 'u' && FourDigits(e[2], e[3], e[4], e[5]) == Some(c))
  {
    if IsC0(c) {
      HexDigits(c as int / 0x10);
      HexDigits(c as int % 0x10);
    }
  }

  lemma HexDigits(n: nat)
    requires n < 0x10
    ensures HexValue(Hex(n)) == Some(n) && HexValue('0') == Some(0)
  {
  }

  lemma EscapeMeans(c: char, rest: string)
    requires Content(rest).Some?
    ensures Content(Escape(c) + rest) == Some([c] + Content(rest).value)
  {
    hide Escape, FourDigits, Letter;
    EscapeShape(c);
    var s := Escape(c) + rest;
    assert s[|Escape(c)|..] == rest && s[..|Escape(c)|] == Escape(c);
    assert forall i :: 0 <= i < |Escape(c)| ==> s[i] == Escape(c)[i];
  }

  /** A quoted name is a JSON string that means the name. */
  lemma {:induction false} JsonMeans(name: string)
    ensures Content(Escaped(name)) == Some(name) && |Escaped(name)| >= |name|
    ensures Json(name)[0] == '"' && Json(name)[|Json(name)| - 1] == '"' && Json(name)[1..|Json(name)| - 1] == Escaped(name)
  {
    hide Content, Escape;
    if name == "" {
      NoContent();
    } else {
      JsonMeans(name[1..]);
      EscapeMeans(name[0], Escaped(name[1..]));
      EscapeIsNotEmpty(name[0]);
      assert name == [name[0]] + name[1..];
    }
  }

  lemma NoContent()
    ensures Content("") == Some("")
  {
  }

  lemma EscapeIsNotEmpty(c: char)
    ensures Escape(c) != ""
  {
  }

  /** A name is quoted exactly if it has whitespace, a control character, a quote, a backslash or a backquote. */
  lemma QuotedExactly(name: string)
    ensures Quote(name) ==
            if exists c :: c in name && (IsWhitespace(c) || c as int <= 0x1f || 0x7f <= c as int <= 0x9f || c in "\"\\`")
            then Json(name) else name
    ensures |Json(name)| > |name|
  {
    hide Escaped, Content;
    JsonMeans(name);
  }

  // ----- What the lexer makes of one printed token -----

  /** Escapes of control characters are read as they are written. */
  function Reread(name: string): (r: string)
    ensures |r| >= |name|
    ensures r == name <==> forall c :: c in name ==> c as int >= 0x20
  {
    if name == "" then ""
    else
      assert name == [name[0]] + name[1..];
      assert name[0] in name && forall c :: c in name <==> c == name[0] || c in name[1..];
      if IsC0(name[0]) then Escape(name[0]) + Reread(name[1..]) else [name[0]] + Reread(name[1..])
  }

  /** The brackets left open by a token that is not quoted. */
  function Feed(name: string, token: string, stack: seq<char>, literalFiles: bool): Result<seq<char>, LexError>
    decreases |name|
  {
    if name == "" then Ok(stack)
    else
      var next := Unquoted(stack, token, name[0], literalFiles);
      if next.Err? then next else Feed(name[1..], token + [name[0]], next.value, literalFiles)
  }

  // ----- Which tokens survive -----

  /** A text that is not quoted. */
  function Plain(t: string): (m: seq<Mark>)
    ensures |m| == |t|
  {
    seq(|t|, i requires 0 <= i < |t| => Mark(t[i], false))
  }

  /** An unquoted text is a word by itself: no apostrophe begins a value, and it is balanced or taken literally. */
  ghost predicate ClosesItself(t: string, literalFiles: bool) {
    Word(Plain(t), 0, |t|, literalFiles)
  }

  /** A token that comes back: not empty, no C0 characters if quoted, closing itself if not. */
  ghost predicate Survives(t: string, literalFiles: bool) {
    && t != ""
    && if NeedsQuotes(t) then forall c :: c in t ==> c as int >= 0x20 else ClosesItself(t, literalFiles)
  }

  lemma PlainText(t: string, i: nat)
    requires i <= |t|
    ensures Text(Plain(t), 0, i) == t[..i]
    ensures i < |t| ==> t[i..][1..] == t[i + 1..] && t[i..][0] == t[i] && t[..i] + [t[i]] == t[..i + 1]
  {
  }

  lemma {:induction false} FeedIsOnward(t: string, i: nat, stack: seq<char>, literalFiles: bool)
    requires i <= |t| && forall k :: 0 <= k < |t| ==> !IsWhitespace(t[k])
    ensures var fed := Feed(t[i..], t[..i], stack, literalFiles);
            Onward(Plain(t), 0, i, |t|, stack, literalFiles) == if fed.Ok? then Some(fed.value) else None
    decreases |t| - i
  {
    hide Unquoted, Text, IsWhitespace;
    PlainText(t, i);
    if i < |t| {
      var next := Unquoted(stack, t[..i], t[i], literalFiles);
      if next.Ok? { FeedIsOnward(t, i + 1, next.value, literalFiles); }
    }
  }

  /** An unquoted token is read without an open bracket or an error exactly if it closes itself. */
  lemma FeedExactly(t: string, literalFiles: bool)
    requires t != "" && !NeedsQuotes(t)
    ensures Feed(t, "", [], literalFiles) == Ok([]) <==> ClosesItself(t, literalFiles)
  {
    hide Feed, Onward, Word, NeedsQuotes, IsWhitespace;
    PlainCharacters(t);
    assert t[0..] == t && t[..0] == "";
    FeedIsOnward(t, 0, [], literalFiles);
    OnwardExactly(Plain(t), 0, |t|, literalFiles);
  }

  lemma PlainCharacters(name: string)
    requires !NeedsQuotes(name)
    ensures forall i :: 0 <= i < |name| ==> name[i] != '"' && !IsWhitespace(name[i])
    ensures name != "" ==> !NeedsQuotes(name[1..])
  {
    forall i | 0 <= i < |name| ensures name[i] != '"' && !IsWhitespace(name[i]) { assert name[i] in name; }
    if name != "" { assert forall c :: c in name[1..] ==> c in name; }
  }

  lemma {:induction false} FeedsToken(name: string, rest: string, st: State, literalFiles: bool)
    requires !NeedsQuotes(name) && !st.quoted
    ensures var fed := Feed(name, st.token, st.stack, literalFiles);
            LexFrom(name + rest, st, literalFiles) ==
            if fed.Err? then Err(fed.error) else LexFrom(rest, st.(token := st.token + name, stack := fed.value), literalFiles)
    decreases |name|
  {
    hide Unquoted, NeedsQuotes, IsWhitespace;
    PlainCharacters(name);
    if name == "" {
      assert name + rest == rest && st.token + name == st.token;
    } else {
      assert (name + rest)[1..] == name[1..] + rest;
      var next := Unquoted(st.stack, st.token, name[0], literalFiles);
      if next.Ok? {
        FeedsToken(name[1..], rest, st.(token := st.token + [name[0]], stack := next.value), literalFiles);
        assert st.token + [name[0]] + name[1..] == st.token + name;
      }
    }
  }

  /** Any input in front of which a quoted character is read. */
  lemma ReadsPlain(c: char, rest: string, st: State, literalFiles: bool)
    requires st.quoted && c != '"' && (c == '\\' ==> rest != "" && rest[0] != '"' && rest[0] != '\\')
    ensures LexFrom([c] + rest, st, literalFiles) == LexFrom(rest, st.(token := st.token + [c]), literalFiles)
  {
    assert ([c] + rest)[1..] == rest;
  }

  lemma ReadsEscaped(c: char, rest: string, st: State, literalFiles: bool)
    requires st.quoted && (c == '"' || c == '\\')
    ensures LexFrom(['\\', c] + rest, st, literalFiles) == LexFrom(rest, st.(token := st.token + [c]), literalFiles)
  {
    assert (['\\', c] + rest)[1..] == [c] + rest && ([c] + rest)[1..] == rest;
  }

  /** A run of characters without quotes whose only backslash is not an escape. */
  lemma {:induction false} ReadsRun(run: string, rest: string, st: State, literalFiles: bool)
    requires st.quoted && forall i :: 0 <= i < |run| ==> run[i] != '"' && run[i] != '\\'
    ensures LexFrom(run + rest, st, literalFiles) == LexFrom(rest, st.(token := st.token + run), literalFiles)
    decreases |run|
  {
    if run == "" {
      assert run + rest == rest && st.token + run == st.token;
    } else {
      assert run + rest == [run[0]] + (run[1..] + rest);
      ReadsPlain(run[0], run[1..] + rest, st, literalFiles);
      ReadsRun(run[1..], rest, st.(token := st.token + [run[0]]), literalFiles);
      assert st.token + [run[0]] + run[1..] == st.token + run;
    }
  }

  lemma ControlEscapeShape(c: char)
    requires IsC0(c)
    ensures var e := Escape(c); |e| >= 2 && e[0] == '\\' && forall i :: 1 <= i < |e| ==> e[i] != '"' && e[i] != '\\'
  {
    HexIsPlain(c as int / 0x10);
    HexIsPlain(c as int % 0x10);
  }

  lemma HexIsPlain(n: nat)
    requires n < 0x10
    ensures Hex(n) != '"' && Hex(n) != '\\'
  {
  }

  lemma ReadsEscape(c: char, rest: string, st: State, literalFiles: bool)
    requires st.quoted
    ensures LexFrom(Escape(c) + rest, st, literalFiles) ==
            LexFrom(rest, st.(token := st.token + (if IsC0(c) then Escape(c) else [c])), literalFiles)
  {
    if c == '"' || c == '\\' {
      assert Escape(c) == ['\\', c];
      ReadsEscaped(c, rest, st, literalFiles);
    } else if !IsC0(c) {
      ReadsPlain(c, rest, st, literalFiles);
    } else {
      hide Escape;
      ReadsControl(c, rest, st, literalFiles);
    }
  }

  lemma ReadsControl(c: char, rest: string, st: State, literalFiles: bool)
    requires st.quoted && IsC0(c)
    ensures LexFrom(Escape(c) + rest, st, literalFiles) == LexFrom(rest, st.(token := st.token + Escape(c)), literalFiles)
  {
    hide Escape, LexFrom;
    ControlEscapeShape(c);
    var e := Escape(c);
    assert e + rest == ['\\'] + (e[1..] + rest);
    ReadsPlain('\\', e[1..] + rest, st, literalFiles);
    ReadsRun(e[1..], rest, st.(token := st.token + ['\\']), literalFiles);
    assert st.token + ['\\'] + e[1..] == st.token + e;
  }

  lemma {:induction false} ReadsEscapes(name: string, rest: string, st: State, literalFiles: bool)
    requires st.quoted
    ensures LexFrom(Escaped(name) + rest, st, literalFiles) == LexFrom(rest, st.(token := st.token + Reread(name)), literalFiles)
    decreases |name|
  {
    hide Escape, LexFrom;
    if name == "" {
      assert Escaped(name) + rest == rest && st.token + Reread(name) == st.token;
    } else {
      var piece := if IsC0(name[0]) then Escape(name[0]) else [name[0]];
      Assoc(Escape(name[0]), Escaped(name[1..]), rest);
      ReadsEscape(name[0], Escaped(name[1..]) + rest, st, literalFiles);
      ReadsEscapes(name[1..], rest, st.(token := st.token + piece), literalFiles);
      Assoc(st.token, piece, Reread(name[1..]));
    }
  }

  lemma ReadsQuote(rest: string, st: State, literalFiles: bool)
    ensures LexFrom("\"" + rest, st, literalFiles) == LexFrom(rest, st.(quoted := !st.quoted), literalFiles)
  {
    assert ("\"" + rest)[1..] == rest;
  }

  lemma ReadsJson(name: string, rest: string, st: State, literalFiles: bool)
    requires !st.quoted
    ensures LexFrom(Json(name) + rest, st, literalFiles) == LexFrom(rest, st.(token := st.token + Reread(name)), literalFiles)
  {
    hide LexFrom, Escaped, Reread;
    assert Json(name) + rest == "\"" + (Escaped(name) + ("\"" + rest));
    ReadsQuote(Escaped(name) + ("\"" + rest), st, literalFiles);
    ReadsEscapes(name, "\"" + rest, st.(quoted := true), literalFiles);
    ReadsQuote(rest, st.(token := st.token + Reread(name), quoted := true), literalFiles);
  }

  // ----- Between tokens -----

  lemma ReadsSpace(rest: string, st: State, literalFiles: bool)
    requires !st.quoted
    ensures LexFrom(" " + rest, st, literalFiles) ==
            if st.stack == [] then LexFrom(rest, State(Flush(st.tokens, st.token), "", [], false), literalFiles)
            else LexFrom(rest, st.(token := st.token + " "), literalFiles)
  {
    assert (" " + rest)[1..] == rest;
  }

  lemma ReadsEnd(st: State, literalFiles: bool)
    requires !st.quoted
    ensures LexFrom("", st, literalFiles) == if st.stack != [] then Err(UnclosedDelimiter) else Ok(Flush(st.tokens, st.token))
  {
  }

  /** The state after one printed token, or the error it runs into. */
  function AfterToken(t: string, st: State, literalFiles: bool): Result<State, LexError> {
    if NeedsQuotes(t) then Ok(st.(token := st.token + Reread(t)))
    else
      var fed := Feed(t, st.token, st.stack, literalFiles);
      if fed.Err? then Err(fed.error) else Ok(st.(token := st.token + t, stack := fed.value))
  }

  lemma ReadsToken(t: string, rest: string, st: State, literalFiles: bool)
    requires !st.quoted
    ensures var after := AfterToken(t, st, literalFiles);
            LexFrom(Quote(t) + rest, st, literalFiles) == if after.Err? then Err(after.error) else LexFrom(rest, after.value, literalFiles)
  {
    hide LexFrom, Json, Feed, Reread;
    if NeedsQuotes(t) { ReadsJson(t, rest, st, literalFiles); } else { FeedsToken(t, rest, st, literalFiles); }
  }

  /** Reading the rest of a printed list behind its first token. */
  function Remaining(tokens: seq<string>): string
    requires tokens != []
  {
    if |tokens| == 1 then "" else " " + Printed(tokens[1..])
  }

  lemma PrintedParts(tokens: seq<string>)
    requires tokens != []
    ensures Printed(tokens) == Quote(tokens[0]) + Remaining(tokens)
  {
    assert Quote(tokens[0]) + "" == Quote(tokens[0]);
  }

  /** A printed list never yields more tokens than it has. */
  lemma {:induction false} NoMoreTokens(tokens: seq<string>, st: State, literalFiles: bool)
    requires !st.quoted && tokens != [] && LexFrom(Printed(tokens), st, literalFiles).Ok?
    ensures |LexFrom(Printed(tokens), st, literalFiles).value| <= |st.tokens| + |tokens|
    decreases |tokens|
  {
    hide LexFrom, Quote, Feed, Reread;
    PrintedParts(tokens);
    ReadsToken(tokens[0], Remaining(tokens), st, literalFiles);
    var after := AfterToken(tokens[0], st, literalFiles).value;
    if |tokens| == 1 {
      ReadsEnd(after, literalFiles);
    } else {
      ReadsSpace(Printed(tokens[1..]), after, literalFiles);
      if after.stack == [] {
        NoMoreTokens(tokens[1..], State(Flush(after.tokens, after.token), "", [], false), literalFiles);
      } else {
        NoMoreTokens(tokens[1..], after.(token := after.token + " "), literalFiles);
      }
    }
  }

  // ----- The round trip, both ways -----

  function Clean(tokens: seq<string>): State { State(tokens, "", [], false) }

  /** A token that survives is read back, and the rest is read from a clean state. */
  lemma SurvivorIsRead(t: string, rest: string, done: seq<string>, literalFiles: bool)
    requires Survives(t, literalFiles)
    ensures LexFrom(Quote(t) + rest, Clean(done), literalFiles) == LexFrom(rest, State(done, t, [], false), literalFiles)
  {
    hide LexFrom, Quote, Feed, ClosesItself;
    if !NeedsQuotes(t) { FeedExactly(t, literalFiles); }
    ReadsToken(t, rest, Clean(done), literalFiles);
    assert "" + t == t && "" + Reread(t) == Reread(t);
  }

  lemma {:induction false} SurvivorsComeBack(tokens: seq<string>, done: seq<string>, literalFiles: bool)
    requires forall t :: t in tokens ==> Survives(t, literalFiles)
    ensures LexFrom(Printed(tokens), Clean(done), literalFiles) == Ok(done + tokens)
    decreases |tokens|
  {
    hide LexFrom, Quote, Survives;
    if tokens == [] {
      ReadsEnd(Clean(done), literalFiles);
      assert done + tokens == done;
    } else {
      var t := tokens[0];
      NotEmpty(t, literalFiles);
      PrintedParts(tokens);
      SurvivorIsRead(t, Remaining(tokens), done, literalFiles);
      if |tokens| == 1 {
        ReadsEnd(State(done, t, [], false), literalFiles);
        assert tokens == [t];
      } else {
        ReadsSpace(Printed(tokens[1..]), State(done, t, [], false), literalFiles);
        SurvivorsComeBack(tokens[1..], done + [t], literalFiles);
        assert done + [t] + tokens[1..] == done + tokens;
      }
    }
  }

  lemma NotEmpty(t: string, literalFiles: bool)
    requires Survives(t, literalFiles)
    ensures t != ""
  {
  }

  /** If the first token does not survive, the list does not come back. */
  lemma FirstIsLost(tokens: seq<string>, done: seq<string>, literalFiles: bool)
    requires tokens != [] && !Survives(tokens[0], literalFiles)
    ensures LexFrom(Printed(tokens), Clean(done), literalFiles) != Ok(done + tokens)
  {
    hide LexFrom, Quote, Feed, ClosesItself, NeedsQuotes, Printed, Remaining, Reread;
    var t := tokens[0];
    if t != "" && !NeedsQuotes(t) { FeedExactly(t, literalFiles); }
    PrintedParts(tokens);
    ReadsToken(t, Remaining(tokens), Clean(done), literalFiles);
    var after := AfterToken(t, Clean(done), literalFiles);
    if after.Ok? {
      if t == "" {
        EmptyIsLost(tokens, done, literalFiles);
      } else {
        assert "" + t == t && "" + Reread(t) == Reread(t);
        OtherTokenIsRead(tokens, done, after.value, literalFiles);
      }
    }
  }

  lemma EmptyIsLost(tokens: seq<string>, done: seq<string>, literalFiles: bool)
    requires tokens != [] && tokens[0] == ""
    ensures LexFrom(Printed(tokens), Clean(done), literalFiles) != Ok(done + tokens)
  {
    hide LexFrom;
    assert Quote("") == "" && "" + Remaining(tokens) == Remaining(tokens);
    PrintedParts(tokens);
    if |tokens| == 1 {
      ReadsEnd(Clean(done), literalFiles);
    } else {
      ReadsSpace(Printed(tokens[1..]), Clean(done), literalFiles);
      if LexFrom(Printed(tokens[1..]), Clean(done), literalFiles).Ok? { NoMoreTokens(tokens[1..], Clean(done), literalFiles); }
    }
  }

  /** A token that was changed, or swallows the following space, is read as something else. */
  lemma OtherTokenIsRead(tokens: seq<string>, done: seq<string>, after: State, literalFiles: bool)
    requires tokens != [] && after.tokens == done && !after.quoted && after.token != ""
    requires |after.token| >= |tokens[0]| && (after.token != tokens[0] || after.stack != [])
    ensures LexFrom(Remaining(tokens), after, literalFiles) != Ok(done + tokens)
  {
    hide LexFrom, Printed;
    var swallows := after.stack != [];
    if |tokens| == 1 {
      ReadsEnd(after, literalFiles);
    } else {
      ReadsSpace(Printed(tokens[1..]), after, literalFiles);
    }
    if LexFrom(Remaining(tokens), after, literalFiles) == Ok(done + tokens) {
      assert (done + tokens)[|done|] == tokens[0];
      if swallows {
        ReadStays(Printed(tokens[1..]), after.(token := after.token + " "), literalFiles);
      } else {
        ReadStays(Remaining(tokens), after, literalFiles);
      }
    }
  }

  /**
   Reading back a printed list of tokens yields the list exactly if every single token
   survives; both for ordinary and for history queries.
   */
  lemma {:induction false} RoundTripExactly(tokens: seq<string>, done: seq<string>, literalFiles: bool)
    ensures LexFrom(Printed(tokens), Clean(done), literalFiles) == Ok(done + tokens) <==>
            forall t :: t in tokens ==> Survives(t, literalFiles)
    decreases |tokens|
  {
    hide LexFrom, Quote, Survives;
    if forall t :: t in tokens ==> Survives(t, literalFiles) {
      SurvivorsComeBack(tokens, done, literalFiles);
    } else if !Survives(tokens[0], literalFiles) {
      FirstIsLost(tokens, done, literalFiles);
    } else {
      LaterIsLost(tokens, done, literalFiles);
    }
  }

  lemma {:induction false} LaterIsLost(tokens: seq<string>, done: seq<string>, literalFiles: bool)
    requires tokens != [] && Survives(tokens[0], literalFiles) && !(forall t :: t in tokens ==> Survives(t, literalFiles))
    ensures LexFrom(Printed(tokens), Clean(done), literalFiles) != Ok(done + tokens)
    decreases |tokens|, 0
  {
    hide LexFrom, Quote, Survives;
    var t, rest := tokens[0], tokens[1..];
    assert tokens == [t] + rest;
    NotEmpty(t, literalFiles);
    PrintedParts(tokens);
    SurvivorIsRead(t, Remaining(tokens), done, literalFiles);
    ReadsSpace(Printed(rest), State(done, t, [], false), literalFiles);
    RoundTripExactly(rest, done + [t], literalFiles);
    assert done + [t] + rest == done + tokens;
  }

  // ----- Tokens without brackets -----

  predicate IsBracket(c: char) {
    c in "()[]{}<>"
  }

  /** Outside quotes, brackets and apostrophes are all that can go wrong. */
  lemma {:induction false} NoBracketsFeed(name: string, token: string, literalFiles: bool)
    requires forall c :: c in name ==> !IsBracket(c) && c != '\''
    ensures Feed(name, token, [], literalFiles) == Ok([])
    decreases |name|
  {
    hide EndsWith, IsLiteral;
    if name != "" {
      assert name[0] in name && forall c :: c in name[1..] ==> c in name;
      NoBracketsFeed(name[1..], token + [name[0]], literalFiles);
    }
  }

  lemma OrdinaryTokensSurvive(t: string, literalFiles: bool)
    requires t != ""
    requires if NeedsQuotes(t) then forall c :: c in t ==> c as int >= 0x20 else forall c :: c in t ==> !IsBracket(c) && c != '\''
    ensures Survives(t, literalFiles)
  {
    hide NeedsQuotes, Feed, ClosesItself;
    if !NeedsQuotes(t) {
      FeedExactly(t, literalFiles);
      NoBracketsFeed(t, "", literalFiles);
    }
  }

  // ----- Suggestions -----

  /** The position of the first colon. */
  function FindColon(token: string): (r: Option<nat>)
    ensures r.Some? ==> r.value < |token| && token[r.value] == ':' && forall i :: 0 <= i < r.value ==> token[i] != ':'
    ensures r.None? ==> ':' !in token
  {
    if token == "" then None
    else if token[0] == ':' then Some(0)
    else
      var later := FindColon(token[1..]);
      assert token == [token[0]] + token[1..];
      if later.None? then None else Some(later.value + 1)
  }

  predicate IsKeyCharacter(c: char) {
    'a' <= c <= 'z' || 'A' <= c <= 'Z' || c == '-'
  }

  predicate IsKey(key: string) { forall i :: 0 <= i < |key| ==> IsKeyCharacter(key[i]) }

  /** A qualifier is the key in front of a single colon. */
  function Qualifier(token: string): (r: Option<(string, string)>)
    ensures r.Some? ==> token == r.value.0 + ":" + r.value.1 && IsKey(r.value.0) && !StartsWith(r.value.1, ":")
    ensures r.None? ==> forall i :: 0 <= i < |token| && token[i] == ':' ==> !IsKey(token[..i]) || StartsWith(token[i + 1..], ":")
  {
    var split := FindColon(token);
    if split.None? then None
    else
      var i := split.value;
      if !StartsWith(token, "@") && !StartsWith(token[i..], "::") && IsKey(token[..i]) then
        assert token[i..] == ":" + token[i + 1..];
        Some((token[..i], token[i + 1..]))
      else None
  }

  function CanonicalKey(key: string): string {
    match key
    case "t" => "type"
    case "c" => "class"
    case "i" => "interface"
    case "m" => "method"
    case "x" => "text"
    case "language" => "lang"
    case "call" => "calls"
    case "use" => "uses"
    case "write" => "writes"
    case "reference" => "references"
    case "dependency" => "dependencies"
    case "attribute" => "attr"
    case _ => key
  }

  function TrimDashes(key: string): (r: string)
    ensures r == "" || r[0] != '-'
    ensures IsKey(key) ==> IsKey(r)
  {
    if key != "" && key[0] == '-' then TrimDashes(key[1..]) else key
  }

  /** A token with its qualifier in the canonical form. */
  function Canonical(token: string): string {
    var q := Qualifier(token);
    if q.None? then token
    else
      var (key, value) := q.value;
      (if StartsWith(key, "-") then "-" else "") + CanonicalKey(TrimDashes(key)) + ":" + value
  }

  function AllCanonical(tokens: seq<string>): (r: seq<string>)
    ensures |r| == |tokens| && forall i :: 0 <= i < |tokens| ==> r[i] == Canonical(tokens[i])
  {
    seq(|tokens|, i requires 0 <= i < |tokens| => Canonical(tokens[i]))
  }

  function Suggestion(tokens: seq<string>): string {
    Printed(AllCanonical(tokens))
  }

  /** Reading a suggestion back yields its canonical tokens exactly if these survive. */
  lemma SuggestionsAreRead(tokens: seq<string>, literalFiles: bool)
    ensures LexFrom(Suggestion(tokens), START, literalFiles) == Ok(AllCanonical(tokens)) <==>
            forall t :: t in tokens ==> Survives(Canonical(t), literalFiles)
  {
    hide LexFrom, Printed, Survives, Canonical;
    var canonical := AllCanonical(tokens);
    RoundTripExactly(canonical, [], literalFiles);
    assert [] + canonical == canonical;
    forall i | 0 <= i < |tokens| ensures tokens[i] in tokens && canonical[i] in canonical {}
  }

  /** Canonical keys are no aliases. */
  lemma AliasesEnd(key: string)
    ensures CanonicalKey(CanonicalKey(key)) == CanonicalKey(key)
  {
  }

  /** Canonical keys have the characters of keys. */
  lemma KeysStayKeys(key: string)
    requires IsKey(key) && (key == "" || key[0] != '-')
    ensures var k := CanonicalKey(key); IsKey(k) && (k == "" || k[0] != '-')
  {
  }

  /** Putting a token into canonical form twice changes nothing more. */
  lemma CanonicalTwice(token: string)
    ensures Canonical(Canonical(token)) == Canonical(token)
  {
    hide FindColon, CanonicalKey;
    var q := Qualifier(token);
    if q.Some? {
      var (key, value) := q.value;
      var sign := if StartsWith(key, "-") then "-" else "";
      var k := CanonicalKey(TrimDashes(key));
      AliasesEnd(TrimDashes(key));
      KeysStayKeys(TrimDashes(key));
      QualifierOf(sign + k, value);
      assert TrimDashes(sign + k) == k by { if sign == "-" { assert (sign + k)[1..] == k; } else { assert sign + k == k; } }
    }
  }

  const ALIASES: map<string, string> :=
    map["t" := "type", "c" := "class", "i" := "interface", "m" := "method", "x" := "text",
        "language" := "lang", "call" := "calls", "use" := "uses", "write" := "writes",
        "reference" := "references", "dependency" := "dependencies", "attribute" := "attr"]

  lemma AliasesExactly(key: string)
    ensures CanonicalKey(key) == if key in ALIASES then ALIASES[key] else key
  {
  }

  function Dashes(n: nat): string { if n == 0 then "" else "-" + Dashes(n - 1) }

  lemma {:induction false} DashesAreTrimmed(n: nat, key: string)
    requires key == "" || key[0] != '-'
    ensures TrimDashes(Dashes(n) + key) == key && (IsKey(key) ==> IsKey(Dashes(n) + key))
    ensures StartsWith(Dashes(n) + key, "-") <==> n > 0
  {
    if n == 0 {
      assert Dashes(n) + key == key;
    } else {
      assert (Dashes(n) + key)[1..] == Dashes(n - 1) + key;
      DashesAreTrimmed(n - 1, key);
    }
  }

  /** Any number of dashes becomes one, aliases become what they stand for, and the value stays. */
  lemma CanonicalExactly(dashes: nat, key: string, value: string)
    requires IsKey(key) && (key == "" || key[0] != '-') && !StartsWith(value, ":")
    ensures Canonical(Dashes(dashes) + key + ":" + value) ==
            (if dashes > 0 then "-" else "") + (if key in ALIASES then ALIASES[key] else key) + ":" + value
  {
    hide Qualifier, CanonicalKey;
    DashesAreTrimmed(dashes, key);
    QualifierOf(Dashes(dashes) + key, value);
    AliasesExactly(key);
  }

  lemma QualifierOf(key: string, value: string)
    requires IsKey(key) && !StartsWith(value, ":")
    ensures Qualifier(key + ":" + value) == Some((key, value))
  {
    var token := key + ":" + value;
    assert token[|key|] == ':' && token[..|key|] == key && token[|key| + 1..] == value;
    assert forall i :: 0 <= i < |key| ==> token[i] == key[i] && IsKeyCharacter(key[i]);
    assert token[|key|..] == ":" + value;
    assert value != "" ==> token[|key|..][1] == value[0];
    assert token[0] != '@';
  }
}
