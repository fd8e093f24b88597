/**
 What the query lexer of `src/query.rs` reads, told without reading: which quotes open and close,
 which brackets belong together, and how words and blanks make up the input.
 */
module QueryReading {
  import opened Common
  import opened QueryLexer

  // ----- Quotes -----

  /** A character that is kept, and whether it stood in quotes. */
  datatype Mark = Mark(c: char, quoted: bool)

  datatype Mode = Outside | Inside | Escaped

  /** A backslash that only keeps the quote or backslash behind it from its meaning. */
  predicate Escapes(s: string, i: nat)
    requires i < |s|
  {
    s[i] == '\\' && i + 1 < |s| && (s[i + 1] == '"' || s[i + 1] == '\\')
  }

  /** Quotes open outside and close inside; inside, a character behind such a backslash is escaped. */
  function ModeAt(s: string, i: nat): Mode
    requires i <= |s|
  {
    if i == 0 then Outside
    else match ModeAt(s, i - 1)
         case Outside => if s[i - 1] == '"' then Inside else Outside
         case Escaped => Inside
         case Inside => if s[i - 1] == '"' then Outside else if Escapes(s, i - 1) then Escaped else Inside
  }

  /** Quotes and escaping backslashes are not kept. */
  predicate IsKept(s: string, i: nat)
    requires i < |s|
  {
    match ModeAt(s, i)
    case Outside => s[i] != '"'
    case Escaped => true
    case Inside => s[i] != '"' && !Escapes(s, i)
  }

  function MarksFrom(s: string, i: nat): seq<Mark>
    requires i <= |s|
    decreases |s| - i
  {
    if i == |s| then []
    else (if IsKept(s, i) then [Mark(s[i], ModeAt(s, i) != Outside)] else []) + MarksFrom(s, i + 1)
  }

  function Marks(s: string): seq<Mark> { MarksFrom(s, 0) }

  predicate QuoteOpen(s: string) { ModeAt(s, |s|) != Outside }

  // ----- Words -----

  /** The text between two positions. */
  function Text(m: seq<Mark>, n: nat, j: nat): string
    requires n <= j <= |m|
  {
    seq(j - n, k requires 0 <= k < j - n => m[n + k].c)
  }

  predicate Blank(k: Mark) { !k.quoted && IsWhitespace(k.c) }

  /** An apostrophe that would begin a value, in a word from `n` on. */
  predicate BeginsValue(m: seq<Mark>, n: nat, i: nat)
    requires n <= i < |m|
  {
    !m[i].quoted && m[i].c == '\'' && (i == n || m[i - 1].c == ':')
  }

  /** An angle bracket opens nothing inside braces, nor in the name of an operator. */
  predicate Opens(m: seq<Mark>, n: nat, i: nat, braces: bool)
    requires n <= i < |m|
  {
    !m[i].quoted &&
    (m[i].c in "([{"
     || (m[i].c == '<' && !braces && !EndsWith(Text(m, n, i), "operator") && !EndsWith(Text(m, n, i), "operator<")))
  }

  /** The closer of a bracket; an arrow closes nothing. */
  predicate Closes(m: seq<Mark>, n: nat, i: nat, open: char)
    requires n <= i < |m|
  {
    !m[i].quoted &&
    match open
    case '(' => m[i].c == ')'
    case '[' => m[i].c == ']'
    case '{' => m[i].c == '}'
    case _ => m[i].c == '>' && (i == n || m[i - 1].c != '-')
  }

  /** Whether a character is neither bracket nor blank; `open` is the innermost open bracket, blanks are fine within one. */
  predicate Ordinary(m: seq<Mark>, n: nat, i: nat, open: Option<char>, braces: bool)
    requires n <= i < |m|
  {
    m[i].quoted ||
    (!Opens(m, n, i, braces) && m[i].c !in ")]}" && (open == Some('<') ==> !Closes(m, n, i, '<'))
     && (open == None ==> !IsWhitespace(m[i].c)))
  }

  /** Characters `i` to `j` are balanced: ordinary ones, and brackets around balanced ones. */
  ghost predicate Balanced(m: seq<Mark>, n: nat, i: nat, j: nat, open: Option<char>, braces: bool)
    requires n <= i <= j <= |m|
    decreases j - i
  {
    || i == j
    || (i < j && Ordinary(m, n, i, open, braces) && Balanced(m, n, i + 1, j, open, braces))
    || (i < j && Opens(m, n, i, braces) && exists k {:trigger Closes(m, n, k, m[i].c)} ::
          i < k < j && Closes(m, n, k, m[i].c)
          && Balanced(m, n, i + 1, k, Some(m[i].c), braces || m[i].c == '{') && Balanced(m, n, k + 1, j, open, braces))
  }

  /** Some bracket between `i` and `j` is not closed there. */
  ghost predicate Dangling(m: seq<Mark>, n: nat, i: nat, j: nat, open: Option<char>, braces: bool)
    requires n <= i <= j <= |m|
    decreases j - i
  {
    exists p {:trigger Opens(m, n, p, braces)} ::
      i <= p < j && Balanced(m, n, i, p, open, braces) && Opens(m, n, p, braces)
      && (Balanced(m, n, p + 1, j, Some(m[p].c), braces || m[p].c == '{')
          || Dangling(m, n, p + 1, j, Some(m[p].c), braces || m[p].c == '{'))
  }

  ghost predicate NoValue(m: seq<Mark>, n: nat, j: nat)
    requires n <= j <= |m|
  {
    forall i :: n <= i < j ==> !BeginsValue(m, n, i)
  }

  /** Qualifiers whose values are not looked into; history queries have one more. */
  function LiteralQualifiers(literalFiles: bool): set<string> {
    {"operator:", "text:", "x:"} + (if literalFiles then {"file:"} else {})
  }

  ghost predicate TakenLiterally(t: string, literalFiles: bool) {
    exists q :: q in LiteralQualifiers(literalFiles) && q <= t
  }

  lemma LiteralExactly(t: string, literalFiles: bool)
    ensures TakenLiterally(t, literalFiles) <==> IsLiteral(t, literalFiles)
  {
    var all := LiteralQualifiers(literalFiles);
    assert "operator:" in all && "text:" in all && "x:" in all && (literalFiles ==> "file:" in all);
  }

  /** One word: balanced without blanks outside brackets, or taken literally without any blanks. */
  ghost predicate Word(m: seq<Mark>, n: nat, j: nat, literalFiles: bool) {
    && n < j <= |m| && NoValue(m, n, j)
    && if TakenLiterally(Text(m, n, j), literalFiles) then forall i :: n <= i < j ==> !Blank(m[i])
       else Balanced(m, n, n, j, None, false)
  }

  /** The beginning of a word that has a bracket open. */
  ghost predicate OpenWord(m: seq<Mark>, n: nat, j: nat, literalFiles: bool) {
    && n < j <= |m| && NoValue(m, n, j)
    && !TakenLiterally(Text(m, n, j), literalFiles) && Dangling(m, n, n, j, None, false)
  }

  // ----- Words and blanks -----

  /** Up to `i` there are only blanks and these words, each of them followed by a blank. */
  ghost predicate Clean(m: seq<Mark>, i: nat, words: seq<string>, literalFiles: bool)
    decreases i, 0
  {
    i <= |m| &&
    if i == 0 then words == []
    else Blank(m[i - 1]) && (Clean(m, i - 1, words, literalFiles) || Ended(m, i - 1, words, literalFiles))
  }

  /** Up to `i` there are only blanks and these words, the last of which ends at `i`. */
  ghost predicate Ended(m: seq<Mark>, i: nat, words: seq<string>, literalFiles: bool)
    decreases i, 1
  {
    i <= |m| && words != [] && exists n ::
      0 <= n < i && Word(m, n, i, literalFiles) && words[|words| - 1] == Text(m, n, i)
      && Clean(m, n, words[..|words| - 1], literalFiles)
  }

  /** Everything is blanks and these words. */
  ghost predicate Divides(m: seq<Mark>, words: seq<string>, literalFiles: bool) {
    Clean(m, |m|, words, literalFiles) || Ended(m, |m|, words, literalFiles)
  }

  /** Up to `i` there are blanks and words, and from `n` on a word that may go on. */
  ghost predicate Begun(m: seq<Mark>, n: nat, i: nat, words: seq<string>, literalFiles: bool) {
    && n <= i <= |m| && Clean(m, n, words, literalFiles)
    && (n == i || Word(m, n, i, literalFiles) || OpenWord(m, n, i, literalFiles))
  }

  // ----- Reading marks one by one -----

  /** What the lexer makes of the marks; `open` says that a quote is left open behind them. */
  function Read(m: seq<Mark>, open: bool, tokens: seq<string>, token: string, stack: seq<char>, literalFiles: bool)
    : Result<seq<string>, LexError>
  {
    if m == [] then
      if open then Err(UnclosedQuote) else if stack != [] then Err(UnclosedDelimiter) else Ok(Flush(tokens, token))
    else
      var c, rest := m[0].c, m[1..];
      if m[0].quoted then Read(rest, open, tokens, token + [c], stack, literalFiles)
      else
        var next := Unquoted(stack, token, c, literalFiles);
        if next.Err? then Err(next.error)
        else if IsWhitespace(c) && next.value == [] then Read(rest, open, Flush(tokens, token), "", [], literalFiles)
        else Read(rest, open, tokens, token + [c], next.value, literalFiles)
  }

  lemma ModeStep(s: string, i: nat)
    requires i < |s|
    ensures ModeAt(s, i + 1) == match ModeAt(s, i)
                                case Outside => if s[i] == '"' then Inside else Outside
                                case Escaped => Inside
                                case Inside => if s[i] == '"' then Outside else if Escapes(s, i) then Escaped else Inside
  {
  }

  lemma MarksStep(s: string, i: nat)
    requires i < |s|
    ensures IsKept(s, i) ==> MarksFrom(s, i) == [Mark(s[i], ModeAt(s, i) != Outside)] + MarksFrom(s, i + 1)
    ensures !IsKept(s, i) ==> MarksFrom(s, i) == MarksFrom(s, i + 1)
    ensures s[i..] == [s[i]] + s[i + 1..] && s[i..][0] == s[i] && s[i..][1..] == s[i + 1..]
  {
  }

  /** The lexer sees nothing of the input but its marks, and whether a quote is open at the end. */
  lemma {:induction false} LexReads(s: string, i: nat, st: State, literalFiles: bool)
    requires i <= |s| && ModeAt(s, i) != Escaped && (st.quoted <==> ModeAt(s, i) == Inside)
    ensures LexFrom(s[i..], st, literalFiles) ==
            Read(MarksFrom(s, i), QuoteOpen(s), st.tokens, st.token, st.stack, literalFiles)
    decreases |s| - i
  {
    hide Unquoted, ModeAt, IsWhitespace, MarksFrom;
    if i < |s| {
      ModeStep(s, i);
      MarksStep(s, i);
      var c := s[i];
      if st.quoted {
        if c == '"' {
          LexReads(s, i + 1, st.(quoted := false), literalFiles);
        } else if Escapes(s, i) {
          ModeStep(s, i + 1);
          MarksStep(s, i + 1);
          LexReads(s, i + 2, st.(token := st.token + [s[i + 1]]), literalFiles);
          ReadQuoted(s[i + 1], MarksFrom(s, i + 2), QuoteOpen(s), st, literalFiles);
        } else {
          LexReads(s, i + 1, st.(token := st.token + [c]), literalFiles);
          ReadQuoted(c, MarksFrom(s, i + 1), QuoteOpen(s), st, literalFiles);
        }
      } else if c == '"' {
        LexReads(s, i + 1, st.(quoted := true), literalFiles);
      } else {
        LexReadsPlain(s, i, st, literalFiles);
      }
    } else {
      NoMarks(s);
    }
  }

  lemma NoMarks(s: string)
    ensures MarksFrom(s, |s|) == []
  {
  }

  lemma ReadQuoted(c: char, rest: seq<Mark>, open: bool, st: State, literalFiles: bool)
    ensures Read([Mark(c, true)] + rest, open, st.tokens, st.token, st.stack, literalFiles) ==
            Read(rest, open, st.tokens, st.token + [c], st.stack, literalFiles)
  {
    assert ([Mark(c, true)] + rest)[1..] == rest;
  }

  lemma {:induction false} LexReadsPlain(s: string, i: nat, st: State, literalFiles: bool)
    requires i < |s| && ModeAt(s, i) == Outside && !st.quoted && s[i] != '"'
    ensures LexFrom(s[i..], st, literalFiles) ==
            Read(MarksFrom(s, i), QuoteOpen(s), st.tokens, st.token, st.stack, literalFiles)
    decreases |s| - i, 0
  {
    hide Unquoted, ModeAt, IsWhitespace, MarksFrom;
    ModeStep(s, i);
    MarksStep(s, i);
    assert ([Mark(s[i], false)] + MarksFrom(s, i + 1))[1..] == MarksFrom(s, i + 1);
    var next := Unquoted(st.stack, st.token, s[i], literalFiles);
    if next.Ok? {
      if IsWhitespace(s[i]) && next.value == [] {
        LexReads(s, i + 1, QueryLexer.State(Flush(st.tokens, st.token), "", [], false), literalFiles);
      } else {
        LexReads(s, i + 1, st.(token := st.token + [s[i]], stack := next.value), literalFiles);
      }
    }
  }

  // ----- The stack against the grammar -----

  /** The open brackets after one more character of the word from `n` on, or the error it is. */
  function StackAfter(m: seq<Mark>, n: nat, i: nat, stack: seq<char>, literalFiles: bool): Result<seq<char>, LexError>
    requires n <= i < |m|
  {
    if m[i].quoted then Ok(stack) else Unquoted(stack, Text(m, n, i), m[i].c, literalFiles)
  }

  /** The open brackets after the characters `i` to `j`, if no error and no end of the word is among them. */
  function Onward(m: seq<Mark>, n: nat, i: nat, j: nat, stack: seq<char>, literalFiles: bool): Option<seq<char>>
    requires n <= i <= j <= |m|
    decreases j - i
  {
    if i == j then Some(stack)
    else
      var next := StackAfter(m, n, i, stack, literalFiles);
      if next.Err? || (Blank(m[i]) && next.value == []) then None
      else Onward(m, n, i + 1, j, next.value, literalFiles)
  }

  lemma TextSnoc(m: seq<Mark>, n: nat, i: nat)
    requires n <= i < |m|
    ensures Text(m, n, i + 1) == Text(m, n, i) + [m[i].c]
  {
  }

  lemma {:induction false} OnwardSnoc(m: seq<Mark>, n: nat, i: nat, j: nat, stack: seq<char>, literalFiles: bool)
    requires n <= i <= j < |m|
    ensures var so := Onward(m, n, i, j, stack, literalFiles);
            Onward(m, n, i, j + 1, stack, literalFiles) ==
            if so.None? then None else
            var next := StackAfter(m, n, j, so.value, literalFiles);
            if next.Err? || (Blank(m[j]) && next.value == []) then None else Some(next.value)
    decreases j - i
  {
    hide StackAfter, Blank;
    if i < j {
      var next := StackAfter(m, n, i, stack, literalFiles);
      if next.Ok? && !(Blank(m[i]) && next.value == []) { OnwardSnoc(m, n, i + 1, j, next.value, literalFiles); }
    }
  }

  /** A word is read to where it stands. */
  lemma {:induction false} OnwardRead(m: seq<Mark>, open: bool, n: nat, i: nat, j: nat, tokens: seq<string>, stack: seq<char>, literalFiles: bool)
    requires n <= i <= j <= |m| && Onward(m, n, i, j, stack, literalFiles).Some?
    ensures Read(m[i..], open, tokens, Text(m, n, i), stack, literalFiles) ==
            Read(m[j..], open, tokens, Text(m, n, j), Onward(m, n, i, j, stack, literalFiles).value, literalFiles)
    decreases j - i
  {
    hide Unquoted, Text, IsWhitespace;
    if i < j {
      TextSnoc(m, n, i);
      assert m[i..][1..] == m[i + 1..];
      OnwardRead(m, open, n, i + 1, j, tokens, StackAfter(m, n, i, stack, literalFiles).value, literalFiles);
    }
  }

  /** The same without apostrophes and literal words. */
  function Brackets(m: seq<Mark>, n: nat, i: nat, j: nat, stack: seq<char>): Option<seq<char>>
    requires n <= i <= j <= |m|
    decreases j - i
  {
    if i == j then Some(stack)
    else
      var next := if m[i].quoted then Some(stack) else Bracket(stack, Text(m, n, i), m[i].c);
      if next.None? || (Blank(m[i]) && next.value == []) then None else Brackets(m, n, i + 1, j, next.value)
  }

  predicate AreBrackets(stack: seq<char>) { forall c :: c in stack ==> c in "([{<" }

  function Innermost(stack: seq<char>): Option<char> {
    if stack == [] then None else Some(stack[|stack| - 1])
  }

  lemma ArrowEnds(m: seq<Mark>, n: nat, i: nat)
    requires n <= i < |m|
    ensures EndsWith(Text(m, n, i), "-") <==> i > n && m[i - 1].c == '-'
    ensures BeginsValue(m, n, i) <==> !m[i].quoted && m[i].c == '\'' && (Text(m, n, i) == "" || EndsWith(Text(m, n, i), ":"))
  {
    if i > n { assert Text(m, n, i)[i - n - 1..] == [m[i - 1].c]; }
  }

  lemma BlankIsNoBracket(c: char)
    requires IsWhitespace(c)
    ensures c !in "([{<)]}>"
  {
  }

  /** What one character does to the stack. */
  lemma StackExactly(m: seq<Mark>, n: nat, i: nat, j: nat, stack: seq<char>)
    requires n <= i < j <= |m| && AreBrackets(stack)
    ensures var open, braces := Innermost(stack), '{' in stack;
            Brackets(m, n, i, j, stack) ==
            if Opens(m, n, i, braces) then Brackets(m, n, i + 1, j, stack + [m[i].c])
            else if Ordinary(m, n, i, open, braces) then Brackets(m, n, i + 1, j, stack)
            else if open.Some? && Closes(m, n, i, open.value) then Brackets(m, n, i + 1, j, stack[..|stack| - 1])
            else None
  {
    hide EndsWith, Text, IsWhitespace;
    ArrowEnds(m, n, i);
    if IsWhitespace(m[i].c) { BlankIsNoBracket(m[i].c); }
    if stack != [] { assert stack[|stack| - 1] in stack; }
  }

  /** Balanced characters leave the open brackets as they are. */
  lemma {:induction false} BalancedIsSkipped(m: seq<Mark>, n: nat, i: nat, k: nat, j: nat, stack: seq<char>)
    requires n <= i <= k <= j <= |m| && AreBrackets(stack) && Balanced(m, n, i, k, Innermost(stack), '{' in stack)
    ensures Brackets(m, n, i, j, stack) == Brackets(m, n, k, j, stack)
    decreases k - i, 1
  {
    hide Opens, Closes, Ordinary, Brackets;
    if i < k {
      StackExactly(m, n, i, j, stack);
      if Opens(m, n, i, '{' in stack) {
        GroupIsSkipped(m, n, i, k, j, stack);
      } else {
        BalancedIsSkipped(m, n, i + 1, k, j, stack);
      }
    }
  }

  lemma {:induction false} GroupIsSkipped(m: seq<Mark>, n: nat, i: nat, k: nat, j: nat, stack: seq<char>)
    requires n <= i < k <= j <= |m| && AreBrackets(stack) && Balanced(m, n, i, k, Innermost(stack), '{' in stack)
    requires Opens(m, n, i, '{' in stack)
    ensures Brackets(m, n, i, j, stack) == Brackets(m, n, k, j, stack)
    decreases k - i, 0
  {
    hide Closes, Brackets, EndsWith, Text;
    var open, braces := m[i].c, '{' in stack;
    StackExactly(m, n, i, j, stack);
    var l :| i < l < k && Closes(m, n, l, open)
      && Balanced(m, n, i + 1, l, Some(open), braces || open == '{') && Balanced(m, n, l + 1, k, Innermost(stack), braces);
    BalancedIsSkipped(m, n, i + 1, l, j, stack + [open]);
    CloserPops(m, n, l, j, stack, open);
    BalancedIsSkipped(m, n, l + 1, k, j, stack);
  }

  lemma CloserPops(m: seq<Mark>, n: nat, l: nat, j: nat, stack: seq<char>, open: char)
    requires n <= l < j <= |m| && AreBrackets(stack) && open in "([{<" && Closes(m, n, l, open)
    ensures Brackets(m, n, l, j, stack + [open]) == Brackets(m, n, l + 1, j, stack)
  {
    hide Brackets, EndsWith, Text;
    StackExactly(m, n, l, j, stack + [open]);
    assert (stack + [open])[..|stack|] == stack;
  }

  lemma OpensBracket(m: seq<Mark>, n: nat, i: nat, braces: bool)
    requires n <= i < |m| && Opens(m, n, i, braces)
    ensures m[i].c in "([{<"
  {
  }

  /** From where `k` is, whether by an ordinary character or behind a whole group, everything is as it was at `i`. */
  ghost predicate Skips(m: seq<Mark>, n: nat, i: nat, k: nat, j: nat, open: Option<char>, braces: bool)
    requires n <= i < k <= j <= |m|
  {
    forall l :: k <= l <= j && Balanced(m, n, k, l, open, braces) ==> Balanced(m, n, i, l, open, braces)
  }

  lemma OrdinarySkips(m: seq<Mark>, n: nat, i: nat, j: nat, open: Option<char>, braces: bool)
    requires n <= i < j <= |m| && Ordinary(m, n, i, open, braces)
    ensures Skips(m, n, i, i + 1, j, open, braces)
  {
    hide Ordinary, Opens, Closes;
  }

  lemma GroupSkips(m: seq<Mark>, n: nat, i: nat, k: nat, j: nat, open: Option<char>, braces: bool)
    requires n <= i < k < j <= |m| && Opens(m, n, i, braces) && Closes(m, n, k, m[i].c)
    requires Balanced(m, n, i + 1, k, Some(m[i].c), braces || m[i].c == '{')
    ensures Skips(m, n, i, k + 1, j, open, braces)
  {
    hide Ordinary, Opens, Closes;
  }

  lemma DanglingSkips(m: seq<Mark>, n: nat, i: nat, k: nat, j: nat, open: Option<char>, braces: bool)
    requires n <= i < k <= j <= |m| && Skips(m, n, i, k, j, open, braces) && Dangling(m, n, k, j, open, braces)
    ensures Dangling(m, n, i, j, open, braces)
  {
    hide Opens, Balanced;
  }

  /**
   Where reading gets to without an error: either everything is balanced, or a bracket is left
   dangling, or the innermost bracket of the stack is closed at `k` behind balanced characters.
   */
  lemma {:induction false} ReadingSplits(m: seq<Mark>, n: nat, i: nat, j: nat, stack: seq<char>) returns (k: nat)
    requires n <= i <= j <= |m| && AreBrackets(stack) && Brackets(m, n, i, j, stack).Some?
    ensures var r, open, braces := Brackets(m, n, i, j, stack), Innermost(stack), '{' in stack;
            || (r == Some(stack) && Balanced(m, n, i, j, open, braces))
            || (|r.value| > |stack| && Dangling(m, n, i, j, open, braces))
            || (i <= k < j && open.Some? && Closes(m, n, k, open.value) && Balanced(m, n, i, k, open, braces)
                && Brackets(m, n, k + 1, j, stack[..|stack| - 1]) == r)
    decreases j - i
  {
    hide Opens, Closes, Ordinary, Brackets, Balanced, Dangling, Skips;
    var open, braces := Innermost(stack), '{' in stack;
    k := i;
    if i == j {
      NothingIsBalanced(m, n, i, stack);
    } else {
      StackExactly(m, n, i, j, stack);
      if Opens(m, n, i, braces) {
        k := GroupSplits(m, n, i, j, stack);
      } else if Ordinary(m, n, i, open, braces) {
        k := ReadingSplits(m, n, i + 1, j, stack);
        OrdinarySkips(m, n, i, j, open, braces);
        Skipped(m, n, i, i + 1, j, k, stack);
      } else {
        NothingIsBalanced(m, n, i, stack);
      }
    }
  }

  lemma NothingIsBalanced(m: seq<Mark>, n: nat, i: nat, stack: seq<char>)
    requires n <= i <= |m|
    ensures Balanced(m, n, i, i, Innermost(stack), '{' in stack) && Brackets(m, n, i, i, stack) == Some(stack)
  {
  }

  lemma Skipped(m: seq<Mark>, n: nat, i: nat, l: nat, j: nat, k: nat, stack: seq<char>)
    requires n <= i < l <= j <= |m| && Skips(m, n, i, l, j, Innermost(stack), '{' in stack)
    ensures Balanced(m, n, l, j, Innermost(stack), '{' in stack) ==> Balanced(m, n, i, j, Innermost(stack), '{' in stack)
    ensures l <= k < j && Balanced(m, n, l, k, Innermost(stack), '{' in stack) ==> Balanced(m, n, i, k, Innermost(stack), '{' in stack)
    ensures Dangling(m, n, l, j, Innermost(stack), '{' in stack) ==> Dangling(m, n, i, j, Innermost(stack), '{' in stack)
  {
    hide Balanced, Dangling;
    if Dangling(m, n, l, j, Innermost(stack), '{' in stack) { DanglingSkips(m, n, i, l, j, Innermost(stack), '{' in stack); }
  }

  /** The same behind a bracket that has just been opened. */
  lemma {:induction false} GroupSplits(m: seq<Mark>, n: nat, i: nat, j: nat, stack: seq<char>) returns (k: nat)
    requires n <= i < j <= |m| && AreBrackets(stack) && Brackets(m, n, i, j, stack).Some? && Opens(m, n, i, '{' in stack)
    ensures var r, open, braces := Brackets(m, n, i, j, stack), Innermost(stack), '{' in stack;
            || (r == Some(stack) && Balanced(m, n, i, j, open, braces))
            || (|r.value| > |stack| && Dangling(m, n, i, j, open, braces))
            || (i <= k < j && open.Some? && Closes(m, n, k, open.value) && Balanced(m, n, i, k, open, braces)
                && Brackets(m, n, k + 1, j, stack[..|stack| - 1]) == r)
    decreases j - i, 0
  {
    hide Opens, Closes, Ordinary, Brackets, Balanced, Dangling, Skips;
    var open, braces := Innermost(stack), '{' in stack;
    var inner := stack + [m[i].c];
    OpensBracket(m, n, i, braces);
    StackExactly(m, n, i, j, stack);
    assert inner[..|stack|] == stack && ('{' in inner <==> braces || m[i].c == '{');
    k := ReadingSplits(m, n, i + 1, j, inner);
    if Balanced(m, n, i + 1, j, Some(m[i].c), '{' in inner) || Dangling(m, n, i + 1, j, Some(m[i].c), '{' in inner) {
      OpensDangling(m, n, i, j, open, braces);
    }
    if i + 1 <= k < j && Closes(m, n, k, m[i].c) && Balanced(m, n, i + 1, k, Some(m[i].c), '{' in inner)
       && Brackets(m, n, k + 1, j, stack) == Brackets(m, n, i, j, stack) {
      var l := k + 1;
      GroupSkips(m, n, i, k, j, open, braces);
      k := ReadingSplits(m, n, l, j, stack);
      Skipped(m, n, i, l, j, k, stack);
    }
  }

  lemma OpensDangling(m: seq<Mark>, n: nat, i: nat, j: nat, open: Option<char>, braces: bool)
    requires n <= i < j <= |m| && Opens(m, n, i, braces)
    requires Balanced(m, n, i + 1, j, Some(m[i].c), braces || m[i].c == '{') || Dangling(m, n, i + 1, j, Some(m[i].c), braces || m[i].c == '{')
    ensures Dangling(m, n, i, j, open, braces)
  {
    hide Opens;
    assert Balanced(m, n, i, i, open, braces);
  }

  /** A dangling bracket stays on the stack. */
  lemma {:induction false} DanglingStays(m: seq<Mark>, n: nat, i: nat, j: nat, stack: seq<char>)
    requires n <= i <= j <= |m| && AreBrackets(stack) && Dangling(m, n, i, j, Innermost(stack), '{' in stack)
    ensures var r := Brackets(m, n, i, j, stack); r.Some? && |r.value| > |stack|
    decreases j - i
  {
    hide Opens, Closes, Ordinary, Brackets, Balanced;
    var open, braces := Innermost(stack), '{' in stack;
    var p :| i <= p < j && Balanced(m, n, i, p, open, braces) && Opens(m, n, p, braces)
      && (Balanced(m, n, p + 1, j, Some(m[p].c), braces || m[p].c == '{')
          || Dangling(m, n, p + 1, j, Some(m[p].c), braces || m[p].c == '{'));
    var inner := stack + [m[p].c];
    OpensBracket(m, n, p, braces);
    BalancedIsSkipped(m, n, i, p, j, stack);
    StackExactly(m, n, p, j, stack);
    assert '{' in inner <==> braces || m[p].c == '{';
    if Balanced(m, n, p + 1, j, Some(m[p].c), '{' in inner) {
      BalancedIsSkipped(m, n, p + 1, j, j, inner);
      NothingIsBalanced(m, n, j, inner);
    } else {
      DanglingStays(m, n, p + 1, j, inner);
    }
  }

  /** So the stack is empty at the end exactly if all is balanced, and not empty exactly if a bracket dangles. */
  lemma BracketsExactly(m: seq<Mark>, n: nat, j: nat)
    requires n <= j <= |m|
    ensures var r := Brackets(m, n, n, j, []);
            && (r == Some([]) <==> Balanced(m, n, n, j, None, false))
            && (r.Some? && r.value != [] <==> Dangling(m, n, n, j, None, false))
  {
    hide Opens, Closes, Ordinary, Brackets, Balanced, Dangling;
    if Balanced(m, n, n, j, None, false) {
      BalancedIsSkipped(m, n, n, j, j, []);
      NothingIsBalanced(m, n, j, []);
    }
    if Dangling(m, n, n, j, None, false) { DanglingStays(m, n, n, j, []); }
    if Brackets(m, n, n, j, []).Some? { var _ := ReadingSplits(m, n, n, j, []); }
  }

  // ----- Words against reading -----

  lemma LiteralGrows(m: seq<Mark>, n: nat, i: nat, j: nat, literalFiles: bool)
    requires n <= i <= j <= |m|
    ensures IsLiteral(Text(m, n, i), literalFiles) ==> IsLiteral(Text(m, n, j), literalFiles)
  {
    assert Text(m, n, j)[..i - n] == Text(m, n, i);
  }

  /** In a word that is not literal, brackets are all that matters, unless an apostrophe begins a value. */
  lemma {:induction false} OnwardIsBrackets(m: seq<Mark>, n: nat, i: nat, j: nat, stack: seq<char>, literalFiles: bool)
    requires n <= i <= j <= |m| && !IsLiteral(Text(m, n, j), literalFiles) && forall k :: i <= k < j ==> !BeginsValue(m, n, k)
    ensures Onward(m, n, i, j, stack, literalFiles) == Brackets(m, n, i, j, stack)
    decreases j - i
  {
    hide Bracket, IsLiteral, EndsWith, BeginsValue, Text, Blank;
    if i < j {
      ArrowEnds(m, n, i);
      LiteralGrows(m, n, i, j, literalFiles);
      var next := if m[i].quoted then Some(stack) else Bracket(stack, Text(m, n, i), m[i].c);
      if next.Some? && !(Blank(m[i]) && next.value == []) { OnwardIsBrackets(m, n, i + 1, j, next.value, literalFiles); }
    }
  }

  lemma {:induction false} OnwardHasNoValue(m: seq<Mark>, n: nat, i: nat, j: nat, stack: seq<char>, literalFiles: bool)
    requires n <= i <= j <= |m| && Onward(m, n, i, j, stack, literalFiles).Some?
    ensures forall k :: i <= k < j ==> !BeginsValue(m, n, k)
    decreases j - i
  {
    hide Bracket, IsLiteral, EndsWith, BeginsValue, Text, Blank;
    if i < j {
      ArrowEnds(m, n, i);
      OnwardHasNoValue(m, n, i + 1, j, StackAfter(m, n, i, stack, literalFiles).value, literalFiles);
    }
  }

  /** A literal word has no brackets in its qualifier; behind it they do not matter, and any blank ends it. */
  lemma {:induction false} OnwardLiteral(m: seq<Mark>, n: nat, i: nat, j: nat, literalFiles: bool)
    requires n <= i <= j <= |m| && IsLiteral(Text(m, n, j), literalFiles) && forall k :: i <= k < j ==> !BeginsValue(m, n, k)
    ensures Onward(m, n, i, j, [], literalFiles) == if forall k :: i <= k < j ==> !Blank(m[k]) then Some([]) else None
    decreases j - i
  {
    hide Bracket, IsLiteral, EndsWith, BeginsValue, Text, Blank;
    if i < j {
      ArrowEnds(m, n, i);
      if !IsLiteral(Text(m, n, i), literalFiles) { QualifierIsPlain(m, n, i, j, literalFiles); }
      OnwardLiteral(m, n, i + 1, j, literalFiles);
    }
  }

  lemma QualifierIsPlain(m: seq<Mark>, n: nat, i: nat, j: nat, literalFiles: bool)
    requires n <= i < j <= |m| && IsLiteral(Text(m, n, j), literalFiles) && !IsLiteral(Text(m, n, i), literalFiles)
    ensures Bracket([], Text(m, n, i), m[i].c) == Some([])
  {
    hide EndsWith, Bracket;
    var t := Text(m, n, j);
    assert t[..i - n] == Text(m, n, i) && t[i - n] == m[i].c;
    PlainPrefix(t, i - n, "operator:");
    PlainPrefix(t, i - n, "text:");
    PlainPrefix(t, i - n, "x:");
    PlainPrefix(t, i - n, "file:");
    LettersAreNoBrackets(Text(m, n, i), m[i].c);
  }

  lemma LettersAreNoBrackets(token: string, c: char)
    ensures 'a' <= c <= 'z' || c == ':' ==> Bracket([], token, c) == Some([])
  {
  }

  lemma PlainPrefix(t: string, i: nat, prefix: string)
    requires i < |t| && forall c :: c in prefix ==> 'a' <= c <= 'z' || c == ':'
    ensures StartsWith(t, prefix) && !StartsWith(t[..i], prefix) ==> 'a' <= t[i] <= 'z' || t[i] == ':'
  {
    if StartsWith(t, prefix) && i < |prefix| { assert t[i] == prefix[i] && prefix[i] in prefix; }
    if StartsWith(t, prefix) && i >= |prefix| { assert t[..i][..|prefix|] == prefix; }
  }

  /** Reading gets from `n` to `j` within one word exactly if it is one, or the beginning of one with an open bracket. */
  lemma OnwardExactly(m: seq<Mark>, n: nat, j: nat, literalFiles: bool)
    requires n < j <= |m|
    ensures var r := Onward(m, n, n, j, [], literalFiles);
            && (r == Some([]) <==> Word(m, n, j, literalFiles))
            && (r.Some? && r.value != [] <==> OpenWord(m, n, j, literalFiles))
  {
    hide Onward, IsLiteral, TakenLiterally, Balanced, Dangling, BeginsValue, Brackets, Text, Blank;
    LiteralExactly(Text(m, n, j), literalFiles);
    if Onward(m, n, n, j, [], literalFiles).Some? { OnwardHasNoValue(m, n, n, j, [], literalFiles); }
    if NoValue(m, n, j) {
      if IsLiteral(Text(m, n, j), literalFiles) {
        OnwardLiteral(m, n, n, j, literalFiles);
      } else {
        OnwardIsBrackets(m, n, n, j, [], literalFiles);
        BracketsExactly(m, n, j);
      }
    }
  }

  // ----- What is read, in every case -----

  /** Behind blanks and words the lexer starts afresh. */
  lemma {:induction false} CleanIsRead(m: seq<Mark>, open: bool, i: nat, words: seq<string>, literalFiles: bool)
    requires Clean(m, i, words, literalFiles)
    ensures Read(m, open, [], "", [], literalFiles) == Read(m[i..], open, words, "", [], literalFiles)
    decreases i, 0
  {
    hide Read, Word, Text, Blank;
    assert m[0..] == m;
    if i > 0 {
      if Clean(m, i - 1, words, literalFiles) {
        CleanIsRead(m, open, i - 1, words, literalFiles);
        BlankIsRead(m, open, i - 1, words, "", literalFiles);
      } else {
        EndedIsRead(m, open, i - 1, words, literalFiles);
        BlankIsRead(m, open, i - 1, words[..|words| - 1], words[|words| - 1], literalFiles);
        assert words == words[..|words| - 1] + [words[|words| - 1]];
      }
    }
  }

  lemma BlankIsRead(m: seq<Mark>, open: bool, i: nat, tokens: seq<string>, token: string, literalFiles: bool)
    requires i < |m| && Blank(m[i])
    ensures Read(m[i..], open, tokens, token, [], literalFiles) == Read(m[i + 1..], open, Flush(tokens, token), "", [], literalFiles)
  {
    hide IsWhitespace, IsLiteral, EndsWith, Read;
    BlankIsNoBracket(m[i].c);
    BlankIsNoQuote(m[i].c);
    ReadStep(m, open, i, tokens, token, [], literalFiles);
  }

  lemma BlankIsNoQuote(c: char)
    requires IsWhitespace(c)
    ensures c != '\''
  {
  }

  lemma ReadStep(m: seq<Mark>, open: bool, i: nat, tokens: seq<string>, token: string, stack: seq<char>, literalFiles: bool)
    requires i < |m|
    ensures Read(m[i..], open, tokens, token, stack, literalFiles) == (
              var c := m[i].c;
              if m[i].quoted then Read(m[i + 1..], open, tokens, token + [c], stack, literalFiles) else
              var next := Unquoted(stack, token, c, literalFiles);
              if next.Err? then Err(next.error)
              else if IsWhitespace(c) && next.value == [] then Read(m[i + 1..], open, Flush(tokens, token), "", [], literalFiles)
              else Read(m[i + 1..], open, tokens, token + [c], next.value, literalFiles))
  {
    hide Unquoted, IsWhitespace;
    assert m[i..][1..] == m[i + 1..];
  }

  lemma {:induction false} EndedIsRead(m: seq<Mark>, open: bool, i: nat, words: seq<string>, literalFiles: bool)
    requires Ended(m, i, words, literalFiles)
    ensures words != [] && words[|words| - 1] != ""
    ensures Read(m, open, [], "", [], literalFiles) ==
            Read(m[i..], open, words[..|words| - 1], words[|words| - 1], [], literalFiles)
    decreases i, 1
  {
    hide Read, Clean, Word;
    var last := |words| - 1;
    var n :| 0 <= n < i && Word(m, n, i, literalFiles) && words[last] == Text(m, n, i) && Clean(m, n, words[..last], literalFiles);
    CleanIsRead(m, open, n, words[..last], literalFiles);
    var _ := WordIsRead(m, open, n, i, words[..last], literalFiles);
  }

  /** A word that may go on is read to where it stands, its open brackets on the stack. */
  lemma WordIsRead(m: seq<Mark>, open: bool, n: nat, i: nat, tokens: seq<string>, literalFiles: bool) returns (stack: seq<char>)
    requires n <= i <= |m| && (n == i || Word(m, n, i, literalFiles) || OpenWord(m, n, i, literalFiles))
    ensures Read(m[n..], open, tokens, "", [], literalFiles) == Read(m[i..], open, tokens, Text(m, n, i), stack, literalFiles)
    ensures stack == [] <==> n == i || Word(m, n, i, literalFiles)
    ensures n < i ==> Text(m, n, i) != ""
  {
    hide Read, Word, OpenWord;
    stack := [];
    assert Text(m, n, n) == "";
    if n < i {
      OnwardExactly(m, n, i, literalFiles);
      OnwardRead(m, open, n, n, i, tokens, [], literalFiles);
      stack := Onward(m, n, n, i, [], literalFiles).value;
    }
  }

  lemma BegunIsRead(m: seq<Mark>, open: bool, n: nat, i: nat, words: seq<string>, literalFiles: bool) returns (stack: seq<char>)
    requires Begun(m, n, i, words, literalFiles)
    ensures Read(m, open, [], "", [], literalFiles) == Read(m[i..], open, words, Text(m, n, i), stack, literalFiles)
    ensures stack == [] <==> n == i || Word(m, n, i, literalFiles)
  {
    hide Read, Clean, Word, OpenWord;
    CleanIsRead(m, open, n, words, literalFiles);
    stack := WordIsRead(m, open, n, i, words, literalFiles);
  }

  /** Somewhere an apostrophe begins a value. */
  ghost predicate ValueBegins(m: seq<Mark>, literalFiles: bool) {
    exists n: nat, i: nat, words :: n <= i < |m| && Begun(m, n, i, words, literalFiles) && BeginsValue(m, n, i)
  }

  /** All of the input is blanks and words, the last of which may have an open bracket. */
  ghost predicate AllBegun(m: seq<Mark>, literalFiles: bool) {
    exists n: nat, words :: Begun(m, n, |m|, words, literalFiles)
  }

  /** A bracket is open at the end of the last word. */
  ghost predicate BracketOpen(m: seq<Mark>, literalFiles: bool) {
    exists n: nat, words :: n < |m| && Clean(m, n, words, literalFiles) && OpenWord(m, n, |m|, literalFiles)
  }

  /** What the result says about the input, told from any point of the reading. */
  ghost predicate Explains(r: Result<seq<string>, LexError>, m: seq<Mark>, open: bool, literalFiles: bool) {
    match r
    case Ok(words) => !open && Divides(m, words, literalFiles)
    case Err(UnclosedQuote) => open && AllBegun(m, literalFiles)
    case Err(UnclosedDelimiter) => !open && BracketOpen(m, literalFiles)
    case Err(UseDoubleQuotes) => ValueBegins(m, literalFiles)
    case Err(Unbalanced) => true
  }

  lemma OnwardIsBegun(m: seq<Mark>, n: nat, i: nat, words: seq<string>, literalFiles: bool)
    requires n <= i <= |m| && Clean(m, n, words, literalFiles) && Onward(m, n, n, i, [], literalFiles).Some?
    ensures Begun(m, n, i, words, literalFiles)
    ensures Onward(m, n, n, i, [], literalFiles) == Some([]) <==> n == i || Word(m, n, i, literalFiles)
  {
    hide Onward, Word, OpenWord, Clean;
    if n < i { OnwardExactly(m, n, i, literalFiles); } else { assert Onward(m, n, n, n, [], literalFiles) == Some([]) by { OnwardNothing(m, n, literalFiles); } }
  }

  lemma OnwardNothing(m: seq<Mark>, n: nat, literalFiles: bool)
    requires n <= |m|
    ensures Onward(m, n, n, n, [], literalFiles) == Some([])
  {
  }

  lemma {:induction false} ReadExplains(m: seq<Mark>, open: bool, n: nat, i: nat, words: seq<string>, stack: seq<char>, literalFiles: bool)
    requires n <= i <= |m| && Clean(m, n, words, literalFiles) && Onward(m, n, n, i, [], literalFiles) == Some(stack)
    ensures Explains(Read(m[i..], open, words, Text(m, n, i), stack, literalFiles), m, open, literalFiles)
    decreases |m| - i
  {
    hide Read, Onward, Clean, Word, OpenWord, Begun, Explains, Text, Unquoted, IsWhitespace, BeginsValue;
    OnwardIsBegun(m, n, i, words, literalFiles);
    if i == |m| {
      EndExplains(m, open, n, words, stack, literalFiles);
    } else {
      ReadStep(m, open, i, words, Text(m, n, i), stack, literalFiles);
      TextSnoc(m, n, i);
      OnwardSnoc(m, n, n, i, [], literalFiles);
      var next := StackAfter(m, n, i, stack, literalFiles);
      if next.Err? {
        ErrorExplains(m, open, n, i, words, stack, literalFiles);
      } else if Blank(m[i]) && next.value == [] {
        BlankKeepsStack(m, n, i, stack, literalFiles);
        OnwardNothing(m, i + 1, literalFiles);
        WordEnds(m, n, i, words, literalFiles);
        ReadExplains(m, open, i + 1, i + 1, Flush(words, Text(m, n, i)), [], literalFiles);
        assert Text(m, i + 1, i + 1) == "" by { NoText(m, i + 1); }
      } else {
        ReadExplains(m, open, n, i + 1, words, next.value, literalFiles);
      }
    }
  }

  lemma NoText(m: seq<Mark>, n: nat)
    requires n <= |m|
    ensures Text(m, n, n) == ""
  {
  }

  lemma BlankKeepsStack(m: seq<Mark>, n: nat, i: nat, stack: seq<char>, literalFiles: bool)
    requires n <= i < |m| && Blank(m[i]) && StackAfter(m, n, i, stack, literalFiles) == Ok([])
    ensures stack == []
  {
    hide IsWhitespace, IsLiteral, EndsWith;
    BlankIsNoBracket(m[i].c);
  }

  /** A blank ends the word in front of it, if there is one. */
  lemma WordEnds(m: seq<Mark>, n: nat, i: nat, words: seq<string>, literalFiles: bool)
    requires n <= i < |m| && Clean(m, n, words, literalFiles) && (n == i || Word(m, n, i, literalFiles)) && Blank(m[i])
    ensures Clean(m, i + 1, Flush(words, Text(m, n, i)), literalFiles)
  {
    hide Word;
    if n < i {
      WordIsEnded(m, n, i, words, literalFiles);
      assert |Text(m, n, i)| == i - n;
    }
  }

  lemma WordIsEnded(m: seq<Mark>, n: nat, i: nat, words: seq<string>, literalFiles: bool)
    requires n < i <= |m| && Clean(m, n, words, literalFiles) && Word(m, n, i, literalFiles)
    ensures Ended(m, i, words + [Text(m, n, i)], literalFiles)
  {
    hide Word, Clean, Text;
    var all := words + [Text(m, n, i)];
    assert all[..|all| - 1] == words;
  }

  lemma ErrorExplains(m: seq<Mark>, open: bool, n: nat, i: nat, words: seq<string>, stack: seq<char>, literalFiles: bool)
    requires n <= i < |m| && Begun(m, n, i, words, literalFiles) && StackAfter(m, n, i, stack, literalFiles).Err?
    ensures Explains(Err(StackAfter(m, n, i, stack, literalFiles).error), m, open, literalFiles)
  {
    hide Begun, Text, IsLiteral, EndsWith, Bracket;
    ArrowEnds(m, n, i);
  }

  lemma EndExplains(m: seq<Mark>, open: bool, n: nat, words: seq<string>, stack: seq<char>, literalFiles: bool)
    requires n <= |m| && Begun(m, n, |m|, words, literalFiles)
    requires stack == [] <==> n == |m| || Word(m, n, |m|, literalFiles)
    ensures Explains(Read(m[|m|..], open, words, Text(m, n, |m|), stack, literalFiles), m, open, literalFiles)
  {
    hide Word, OpenWord, Clean;
    assert m[|m|..] == [];
    if !open && stack == [] && n < |m| {
      WordIsEnded(m, n, |m|, words, literalFiles);
      assert |Text(m, n, |m|)| == |m| - n;
    }
  }

  /** Divided input has only begun words in it. */
  lemma DividesIsBegun(m: seq<Mark>, words: seq<string>, literalFiles: bool)
    requires Divides(m, words, literalFiles)
    ensures AllBegun(m, literalFiles)
  {
    hide Word, OpenWord, Text;
    if Clean(m, |m|, words, literalFiles) {
      assert Begun(m, |m|, |m|, words, literalFiles);
    } else {
      var n :| 0 <= n < |m| && Word(m, n, |m|, literalFiles) && words[|words| - 1] == Text(m, n, |m|)
        && Clean(m, n, words[..|words| - 1], literalFiles);
      assert Begun(m, n, |m|, words[..|words| - 1], literalFiles);
    }
  }

  lemma DividesIsRead(m: seq<Mark>, open: bool, words: seq<string>, literalFiles: bool)
    requires Divides(m, words, literalFiles)
    ensures Read(m, open, [], "", [], literalFiles) == if open then Err(UnclosedQuote) else Ok(words)
  {
    hide Word, Clean, Ended;
    assert m[|m|..] == [];
    if Clean(m, |m|, words, literalFiles) {
      CleanIsRead(m, open, |m|, words, literalFiles);
    } else {
      EndedIsRead(m, open, |m|, words, literalFiles);
      assert words[..|words| - 1] + [words[|words| - 1]] == words;
    }
  }

  lemma AllBegunIsRead(m: seq<Mark>, open: bool, literalFiles: bool)
    requires AllBegun(m, literalFiles)
    ensures var r := Read(m, open, [], "", [], literalFiles);
            && (open ==> r == Err(UnclosedQuote))
            && (r.Ok? || r == Err(UnclosedDelimiter) || r == Err(UnclosedQuote))
  {
    hide Begun;
    var n: nat, words :| Begun(m, n, |m|, words, literalFiles);
    var stack := BegunIsRead(m, open, n, |m|, words, literalFiles);
    assert m[|m|..] == [];
  }

  lemma BracketOpenIsRead(m: seq<Mark>, literalFiles: bool)
    requires BracketOpen(m, literalFiles)
    ensures Read(m, false, [], "", [], literalFiles) == Err(UnclosedDelimiter) && AllBegun(m, literalFiles)
  {
    hide Clean, Word, OpenWord;
    var n: nat, words :| n < |m| && Clean(m, n, words, literalFiles) && OpenWord(m, n, |m|, literalFiles);
    assert Begun(m, n, |m|, words, literalFiles);
    var stack := BegunIsRead(m, false, n, |m|, words, literalFiles);
    OnwardExactly(m, n, |m|, literalFiles);
    assert m[|m|..] == [];
  }

  lemma ValueBeginsIsRead(m: seq<Mark>, open: bool, literalFiles: bool)
    requires ValueBegins(m, literalFiles)
    ensures Read(m, open, [], "", [], literalFiles) == Err(UseDoubleQuotes)
  {
    hide Begun, Read, Text, IsLiteral, EndsWith, Bracket;
    var n: nat, i: nat, words :| n <= i < |m| && Begun(m, n, i, words, literalFiles) && BeginsValue(m, n, i);
    var stack := BegunIsRead(m, open, n, i, words, literalFiles);
    ReadStep(m, open, i, words, Text(m, n, i), stack, literalFiles);
    ArrowEnds(m, n, i);
  }

  lemma StartIsRead(s: string, literalFiles: bool)
    ensures LexFrom(s, START, literalFiles) == Read(Marks(s), QuoteOpen(s), [], "", [], literalFiles)
    ensures Explains(LexFrom(s, START, literalFiles), Marks(s), QuoteOpen(s), literalFiles)
  {
    hide LexFrom, Read, Explains, MarksFrom;
    assert s[0..] == s && Marks(s)[0..] == Marks(s);
    LexReads(s, 0, START, literalFiles);
    OnwardNothing(Marks(s), 0, literalFiles);
    NoText(Marks(s), 0);
    ReadExplains(Marks(s), QuoteOpen(s), 0, 0, [], [], literalFiles);
  }

  /**
   The result of lexing any input, told from the input alone: the words if every quote is closed
   and there are only words and blanks; an open quote or bracket at the end of what could otherwise
   go on; an apostrophe that begins a value; and unbalanced brackets if it is none of these.
   */
  lemma LexExactly(s: string, literalFiles: bool)
    ensures var r, m := LexFrom(s, START, literalFiles), Marks(s);
            && (forall words :: r == Ok(words) <==> !QuoteOpen(s) && Divides(m, words, literalFiles))
            && (r == Err(UnclosedQuote) <==> QuoteOpen(s) && AllBegun(m, literalFiles))
            && (r == Err(UnclosedDelimiter) <==> !QuoteOpen(s) && BracketOpen(m, literalFiles))
            && (r == Err(UseDoubleQuotes) <==> ValueBegins(m, literalFiles))
            && (r == Err(Unbalanced) <==> !AllBegun(m, literalFiles) && !ValueBegins(m, literalFiles))
  {
    hide LexFrom, Read, Divides, AllBegun, BracketOpen, ValueBegins, Marks, QuoteOpen;
    var m, open := Marks(s), QuoteOpen(s);
    StartIsRead(s, literalFiles);
    forall words | Divides(m, words, literalFiles)
      ensures AllBegun(m, literalFiles) && Read(m, open, [], "", [], literalFiles) == if open then Err(UnclosedQuote) else Ok(words)
    {
      DividesIsBegun(m, words, literalFiles);
      DividesIsRead(m, open, words, literalFiles);
    }
    if AllBegun(m, literalFiles) { AllBegunIsRead(m, open, literalFiles); }
    if BracketOpen(m, literalFiles) { BracketOpenIsRead(m, literalFiles); }
    if ValueBegins(m, literalFiles) { ValueBeginsIsRead(m, open, literalFiles); }
  }
}
