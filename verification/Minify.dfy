/**
 Edit application and whitespace compaction of `src/minify.rs`. Positions count characters;
 which characters are letters or digits is a parameter.
 */
module Minify {
  import opened Common
  import QueryLexer

  datatype Edit = Edit(start: nat, end: nat, text: string)

  datatype Token = Token(start: nat, end: nat, verbatim: bool)

  // ----- Applying edits -----

  /** Earlier start first, and the longer of two edits with one start. */
  predicate Precedes(a: Edit, b: Edit) {
    a.start < b.start || (a.start == b.start && a.end >= b.end)
  }

  ghost predicate Sorted(edits: seq<Edit>) {
    edits == [] || ((forall x :: x in edits[1..] ==> Precedes(edits[0], x)) && Sorted(edits[1..]))
  }

  /** A stable insertion: in front of everything that may follow. */
  function Insert(e: Edit, edits: seq<Edit>): (r: seq<Edit>)
    ensures multiset(r) == multiset(edits) + multiset{e}
    ensures Sorted(edits) ==> Sorted(r)
  {
    if edits == [] then [e]
    else
      assert edits == [edits[0]] + edits[1..];
      if Precedes(e, edits[0]) then
        assert ([e] + edits)[1..] == edits;
        [e] + edits
      else
        var rest := Insert(e, edits[1..]);
        assert ([edits[0]] + rest)[1..] == rest;
        assert forall x :: x in rest ==> x in multiset(rest);
        [edits[0]] + rest
  }

  function Sort(edits: seq<Edit>): (r: seq<Edit>)
    ensures multiset(r) == multiset(edits) && Sorted(r)
  {
    if edits == [] then []
    else
      assert edits == [edits[0]] + edits[1..];
      Insert(edits[0], Sort(edits[1..]))
  }

  ghost predicate WellFormed(edits: seq<Edit>) {
    forall e :: e in edits ==> e.start <= e.end
  }

  /** Edits one behind the other, between `cursor` and `to`. */
  predicate Chained(cursor: nat, edits: seq<Edit>, to: nat)
    decreases |edits|
  {
    if edits == [] then cursor <= to
    else cursor <= edits[0].start <= edits[0].end <= to && Chained(edits[0].end, edits[1..], to)
  }

  /** The text with every edit spliced in. */
  function Splice(source: string, cursor: nat, edits: seq<Edit>, to: nat): string
    requires Chained(cursor, edits, to) && to <= |source|
    decreases |edits|
  {
    if edits == [] then source[cursor..to]
    else source[cursor..edits[0].start] + edits[0].text + Splice(source, edits[0].end, edits[1..], to)
  }

  predicate Accepts(e: Edit, cursor: nat, to: nat) { cursor <= e.start && e.end <= to }

  /** The edits that greedy application accepts. */
  function Accepted(sorted: seq<Edit>, cursor: nat, to: nat): seq<Edit> {
    if sorted == [] then []
    else if Accepts(sorted[0], cursor, to) then [sorted[0]] + Accepted(sorted[1..], sorted[0].end, to)
    else Accepted(sorted[1..], cursor, to)
  }

  function Rejected(sorted: seq<Edit>, cursor: nat, to: nat): seq<Edit> {
    if sorted == [] then []
    else if Accepts(sorted[0], cursor, to) then Rejected(sorted[1..], sorted[0].end, to)
    else [sorted[0]] + Rejected(sorted[1..], cursor, to)
  }

  /** Every edit is either accepted or rejected, and the accepted ones do not overlap. */
  lemma {:induction false} AcceptedAreDisjoint(sorted: seq<Edit>, cursor: nat, to: nat)
    requires cursor <= to && WellFormed(sorted)
    ensures Chained(cursor, Accepted(sorted, cursor, to), to)
    ensures multiset(sorted) == multiset(Accepted(sorted, cursor, to)) + multiset(Rejected(sorted, cursor, to))
  {
    if sorted != [] {
      assert sorted == [sorted[0]] + sorted[1..];
      AcceptedAreDisjoint(sorted[1..], if Accepts(sorted[0], cursor, to) then sorted[0].end else cursor, to);
    }
  }

  /** `e` starts inside one of the accepted edits; of two that start together it is not the longer one. */
  ghost predicate StartsInside(e: Edit, accepted: seq<Edit>) {
    exists a :: a in accepted && a.start <= e.start < a.end && (a.start == e.start ==> e.end <= a.end)
  }

  /** The edit if it has that range. */
  function IfOf(e: Edit, start: nat, end: nat): seq<Edit> {
    if e.start == start && e.end == end then [e] else []
  }

  /** The edits of one range. */
  function OfRange(edits: seq<Edit>, start: nat, end: nat): seq<Edit> {
    if edits == [] then [] else IfOf(edits[0], start, end) + OfRange(edits[1..], start, end)
  }

  lemma OfRangeCons(e: Edit, edits: seq<Edit>, start: nat, end: nat)
    ensures OfRange([e] + edits, start, end) == IfOf(e, start, end) + OfRange(edits, start, end)
  {
    assert ([e] + edits)[1..] == edits;
  }

  lemma InsertStep(e: Edit, edits: seq<Edit>)
    ensures Insert(e, edits) == if edits == [] || Precedes(e, edits[0]) then [e] + edits else [edits[0]] + Insert(e, edits[1..])
  {
    hide Precedes;
    if edits == [] { assert [e] + edits == [e]; }
  }

  lemma {:induction false} InsertIsStable(e: Edit, edits: seq<Edit>, start: nat, end: nat)
    ensures OfRange(Insert(e, edits), start, end) == IfOf(e, start, end) + OfRange(edits, start, end)
  {
    hide OfRange, Insert;
    InsertStep(e, edits);
    if edits == [] || Precedes(e, edits[0]) {
      OfRangeCons(e, edits, start, end);
    } else {
      var rest := edits[1..];
      InsertIsStable(e, rest, start, end);
      OfRangeCons(edits[0], Insert(e, rest), start, end);
      OfRangeCons(edits[0], rest, start, end);
      assert edits == [edits[0]] + rest;
      assert IfOf(e, start, end) == [] || IfOf(edits[0], start, end) == [];
    }
  }

  /** Sorting is stable: edits of one range keep their order, so the first of them is the one that is tried. */
  lemma {:induction false} SortIsStable(edits: seq<Edit>, start: nat, end: nat)
    ensures OfRange(Sort(edits), start, end) == OfRange(edits, start, end)
  {
    hide Insert;
    if edits != [] {
      SortIsStable(edits[1..], start, end);
      InsertIsStable(edits[0], Sort(edits[1..]), start, end);
    }
  }

  /**
   A rejected edit starts inside an accepted one, unless it falls outside the range. `last`
   is the edit accepted before, if there is one; the cursor is its end.
   */
  lemma {:induction false} RejectionHasAReason(sorted: seq<Edit>, cursor: nat, to: nat, last: Option<Edit>, e: Edit)
    requires Sorted(sorted) && e in Rejected(sorted, cursor, to)
    requires last.Some? ==> cursor == last.value.end && forall x :: x in sorted ==> Precedes(last.value, x)
    ensures e.end > to || (last.None? && e.start < cursor)
            || StartsInside(e, Accepted(sorted, cursor, to) + if last.Some? then [last.value] else [])
    decreases |sorted|
  {
    var first, rest := sorted[0], sorted[1..];
    var all := Accepted(sorted, cursor, to) + if last.Some? then [last.value] else [];
    assert sorted == [first] + rest;
    if Accepts(first, cursor, to) {
      RejectionHasAReason(rest, first.end, to, Some(first), e);
      if StartsInside(e, Accepted(rest, first.end, to) + [first]) {
        assert forall x :: x in Accepted(rest, first.end, to) + [first] ==> x in all;
        MoreToStartIn(e, Accepted(rest, first.end, to) + [first], all);
      }
    } else if e == first {
      if last.Some? && e.end <= to {
        assert last.value in all && Precedes(last.value, e);
      }
    } else {
      RejectionHasAReason(rest, cursor, to, last, e);
    }
  }

  lemma MoreToStartIn(e: Edit, some: seq<Edit>, all: seq<Edit>)
    requires StartsInside(e, some) && forall x :: x in some ==> x in all
    ensures StartsInside(e, all)
  {
  }

  method Apply(source: string, from: nat, to: nat, edits: seq<Edit>) returns (text: string)
    requires from <= to <= |source| && WellFormed(edits)
    ensures Chained(from, Accepted(Sort(edits), from, to), to)
    ensures text == Splice(source, from, Accepted(Sort(edits), from, to), to)
  {
    hide Sort, Accepted, Splice, Chained, Sorted;
    var sorted := Sort(edits);
    SortKeeps(edits);
    AcceptedAreDisjoint(sorted, from, to);
    var cursor := from;
    text := "";
    assert sorted[0..] == sorted;
    for i := 0 to |sorted|
      invariant from <= cursor <= to && Chained(cursor, Accepted(sorted[i..], cursor, to), to)
      invariant Splice(source, from, Accepted(sorted, from, to), to) == text + Splice(source, cursor, Accepted(sorted[i..], cursor, to), to)
    {
      var edit := sorted[i];
      OneEdit(source, sorted[i..], cursor, to);
      assert sorted[i..][1..] == sorted[i + 1..];
      if edit.start < cursor || edit.end > to { continue; }
      text := text + source[cursor..edit.start] + edit.text;
      cursor := edit.end;
    }
    NoEdit(source, cursor, to);
    assert sorted[|sorted|..] == [];
    text := text + source[cursor..to];
  }

  lemma SortKeeps(edits: seq<Edit>)
    requires WellFormed(edits)
    ensures WellFormed(Sort(edits))
  {
    forall e | e in Sort(edits) ensures e in edits { assert e in multiset(Sort(edits)); }
  }

  lemma OneEdit(source: string, sorted: seq<Edit>, cursor: nat, to: nat)
    requires sorted != [] && cursor <= to <= |source| && Chained(cursor, Accepted(sorted, cursor, to), to)
    ensures if Accepts(sorted[0], cursor, to)
            then Chained(sorted[0].end, Accepted(sorted[1..], sorted[0].end, to), to)
                 && sorted[0].start <= sorted[0].end
                 && Splice(source, cursor, Accepted(sorted, cursor, to), to) ==
                    source[cursor..sorted[0].start] + sorted[0].text + Splice(source, sorted[0].end, Accepted(sorted[1..], sorted[0].end, to), to)
            else Accepted(sorted, cursor, to) == Accepted(sorted[1..], cursor, to)
  {
    var a := Accepted(sorted, cursor, to);
    if Accepts(sorted[0], cursor, to) { assert a[1..] == Accepted(sorted[1..], sorted[0].end, to); }
  }

  lemma NoEdit(source: string, cursor: nat, to: nat)
    requires cursor <= to <= |source|
    ensures Accepted([], cursor, to) == [] && Chained(cursor, [], to) && Splice(source, cursor, [], to) == source[cursor..to]
  {
  }

  /**
   What application promises: it splices in edits that do not overlap, and leaves out only
   edits outside the range and edits that start inside one of those.
   */
  lemma ApplicationIsMaximal(edits: seq<Edit>, from: nat, to: nat)
    requires from <= to && WellFormed(edits)
    ensures var accepted, rejected := Accepted(Sort(edits), from, to), Rejected(Sort(edits), from, to);
            && Chained(from, accepted, to)
            && multiset(edits) == multiset(accepted) + multiset(rejected)
            && forall e :: e in rejected ==> e.start < from || e.end > to || StartsInside(e, accepted)
  {
    hide Sort, Accepted, Rejected, Sorted, StartsInside;
    var sorted := Sort(edits);
    SortKeeps(edits);
    AcceptedAreDisjoint(sorted, from, to);
    assert Accepted(sorted, from, to) + [] == Accepted(sorted, from, to);
    forall e | e in Rejected(sorted, from, to)
      ensures e.start < from || e.end > to || StartsInside(e, Accepted(sorted, from, to))
    {
      RejectionHasAReason(sorted, from, to, None, e);
    }
  }

  // ----- Separators -----

  predicate IsDigit(c: char) { '0' <= c <= '9' }

  predicate IsWord(alphanumeric: char -> bool, c: char) {
    alphanumeric(c) || c == '_' || c == '@' || c == '#'
  }

  predicate StartsQuoting(c: char) { c in "'\"#@$" }

  /** Character pairs that would form a new operator or comment. */
  predicate Joins(a: char, b: char) {
    || (a == '+' && b == '+') || (a == '-' && b == '-') || (a == '/' && (b == '/' || b == '*')) || (a == '*' && b == '/')
    || (a == '&' && b == '&') || (a == '|' && b == '|') || (a == ':' && b == ':') || (a == '.' && b == '.')
    || (a == '?' && (b == '?' || b == '.' || b == '['))
    || (a == '<' && (b == '<' || b == '=')) || (a == '>' && (b == '>' || b == '=')) || (a == '=' && (b == '=' || b == '>'))
    || (a in "!+-*/%&|^" && b == '=') || (a == '-' && b == '>')
  }

  predicate Separator(alphanumeric: char -> bool, left: string, right: string) {
    var a := if left == "" then ' ' else left[|left| - 1];
    var b := if right == "" then ' ' else right[0];
    || (IsWord(alphanumeric, a) && IsWord(alphanumeric, b))
    || Joins(a, b)
    || (IsDigit(a) && b == '.') || (a == '.' && IsDigit(b))
    || (StartsQuoting(a) && IsWord(alphanumeric, b)) || (IsWord(alphanumeric, a) && StartsQuoting(b))
  }

  // ----- Spacing -----

  predicate IsBlank(gap: string) {
    gap != "" && forall c :: c in gap ==> QueryLexer.IsWhitespace(c)
  }

  /** Whitespace between two tokens, made as short as it may be. */
  function NewGap(alphanumeric: char -> bool, gap: string, left: string, leftVerbatim: bool, right: string, rightVerbatim: bool): string {
    if !IsBlank(gap) then gap
    else if '\n' in gap then (if right == "{" && !leftVerbatim then "" else "\n")
    else if leftVerbatim || rightVerbatim || Separator(alphanumeric, left, right) then " "
    else ""
  }

  ghost predicate InOrder(source: string, tokens: seq<Token>) {
    && (forall i :: 0 <= i < |tokens| ==> tokens[i].start <= tokens[i].end <= |source|)
    && (forall i, j :: 0 <= i < j < |tokens| ==> tokens[i].end <= tokens[j].start)
  }

  function Text(source: string, t: Token): string
    requires t.start <= t.end <= |source|
  {
    source[t.start..t.end]
  }

  function Gap(source: string, tokens: seq<Token>, i: nat): string
    requires InOrder(source, tokens) && 0 < i < |tokens|
  {
    source[tokens[i - 1].end..tokens[i].start]
  }

  function NewGapAt(alphanumeric: char -> bool, source: string, tokens: seq<Token>, i: nat): string
    requires InOrder(source, tokens) && 0 < i < |tokens|
  {
    var l, r := tokens[i - 1], tokens[i];
    NewGap(alphanumeric, Gap(source, tokens, i), Text(source, l), l.verbatim, Text(source, r), r.verbatim)
  }

  /** One edit for every blank gap from token `i` on. */
  function EditsFrom(alphanumeric: char -> bool, source: string, tokens: seq<Token>, i: nat): seq<Edit>
    requires InOrder(source, tokens) && 0 < i
    decreases |tokens| - i
  {
    if i >= |tokens| then []
    else
      var later := EditsFrom(alphanumeric, source, tokens, i + 1);
      if IsBlank(Gap(source, tokens, i))
      then [Edit(tokens[i - 1].end, tokens[i].start, NewGapAt(alphanumeric, source, tokens, i))] + later
      else later
  }

  method Spacing(alphanumeric: char -> bool, source: string, tokens: seq<Token>) returns (edits: seq<Edit>)
    requires InOrder(source, tokens)
    ensures edits == EditsFrom(alphanumeric, source, tokens, 1)
  {
    hide Separator, IsBlank, EditsFrom;
    edits := [];
    var end := if tokens == [] then 0 else tokens[0].start;
    var previous: Option<Token> := None;
    for i := 0 to |tokens|
      invariant i == 0 ==> previous == None && edits == [] && (tokens != [] ==> end == tokens[0].start)
      invariant i > 0 ==> previous == Some(tokens[i - 1]) && end == tokens[i - 1].end
      invariant i > 0 ==> edits + EditsFrom(alphanumeric, source, tokens, i) == EditsFrom(alphanumeric, source, tokens, 1)
    {
      var token := tokens[i];
      var gap := source[end..token.start];
      if i == 0 { FirstGap(source, tokens); } else { NextEdit(alphanumeric, source, tokens, i, edits); }
      if IsBlank(gap) {
        var left := if previous.Some? then source[previous.value.start..previous.value.end] else "";
        var right := source[token.start..token.end];
        var text := "";
        if previous.Some? && '\n' in gap {
          if !(right == "{" && !previous.value.verbatim) { text := "\n"; }
        } else if previous.Some? && (previous.value.verbatim || token.verbatim || Separator(alphanumeric, left, right)) {
          text := " ";
        }
        edits := edits + [Edit(end, token.start, text)];
      }
      end := token.end;
      previous := Some(token);
    }
    LastEdit(alphanumeric, source, tokens);
  }

  lemma FirstGap(source: string, tokens: seq<Token>)
    requires InOrder(source, tokens) && tokens != []
    ensures !IsBlank(source[tokens[0].start..tokens[0].start])
  {
  }

  lemma NextEdit(alphanumeric: char -> bool, source: string, tokens: seq<Token>, i: nat, edits: seq<Edit>)
    requires InOrder(source, tokens) && 0 < i < |tokens|
    ensures var e := Edit(tokens[i - 1].end, tokens[i].start, NewGapAt(alphanumeric, source, tokens, i));
            edits + EditsFrom(alphanumeric, source, tokens, i) ==
            (if IsBlank(Gap(source, tokens, i)) then edits + [e] else edits) + EditsFrom(alphanumeric, source, tokens, i + 1)
  {
    hide IsBlank, NewGapAt;
    Assoc(edits, [Edit(tokens[i - 1].end, tokens[i].start, NewGapAt(alphanumeric, source, tokens, i))],
          EditsFrom(alphanumeric, source, tokens, i + 1));
  }

  lemma LastEdit(alphanumeric: char -> bool, source: string, tokens: seq<Token>)
    requires InOrder(source, tokens)
    ensures tokens != [] ==> EditsFrom(alphanumeric, source, tokens, |tokens|) == []
    ensures tokens == [] ==> EditsFrom(alphanumeric, source, tokens, 1) == []
  {
  }

  /** Spacing edits lie one behind the other, and none is empty. */
  lemma {:induction false} SpacingIsChained(alphanumeric: char -> bool, source: string, tokens: seq<Token>, i: nat, cursor: nat, to: nat)
    requires InOrder(source, tokens) && 0 < i <= |tokens| && cursor <= tokens[i - 1].end && tokens[|tokens| - 1].start <= to
    requires cursor <= to
    ensures var edits := EditsFrom(alphanumeric, source, tokens, i);
            Chained(cursor, edits, to) && forall e :: e in edits ==> e.start < e.end
    decreases |tokens| - i
  {
    hide IsBlank, NewGapAt;
    if i < |tokens| {
      BlankIsNotEmpty(source, tokens, i);
      SpacingIsChained(alphanumeric, source, tokens, i + 1, if IsBlank(Gap(source, tokens, i)) then tokens[i].start else cursor, to);
    }
  }

  lemma BlankIsNotEmpty(source: string, tokens: seq<Token>, i: nat)
    requires InOrder(source, tokens) && 0 < i < |tokens|
    ensures IsBlank(Gap(source, tokens, i)) ==> tokens[i - 1].end < tokens[i].start
  {
  }

  /** Edits that are chained and not empty are accepted as they are. */
  lemma {:induction false} ChainedAreAccepted(edits: seq<Edit>, cursor: nat, to: nat)
    requires Chained(cursor, edits, to) && forall e :: e in edits ==> e.start < e.end
    ensures Sort(edits) == edits && Accepted(edits, cursor, to) == edits
    decreases |edits|
  {
    if edits != [] {
      assert edits == [edits[0]] + edits[1..];
      ChainedAreAccepted(edits[1..], edits[0].end, to);
      if |edits| > 1 { assert edits[0].end <= edits[1].start; }
    }
  }

  // ----- Compaction -----

  /** Tokens that reach into a range; the first and the last may straddle its ends. */
  ghost predicate InRange(source: string, tokens: seq<Token>, from: nat, to: nat) {
    && InOrder(source, tokens) && from <= to <= |source|
    && (tokens != [] ==> from <= tokens[0].end && tokens[|tokens| - 1].start <= to)
  }

  ghost predicate Inside(tokens: seq<Token>, from: nat, to: nat) {
    tokens != [] ==> from <= tokens[0].start && tokens[|tokens| - 1].end <= to
  }

  /** What follows token `i - 1` up to `to`, where the last token is cut off. */
  function After(alphanumeric: char -> bool, source: string, tokens: seq<Token>, i: nat, to: nat): string
    requires InOrder(source, tokens) && 0 < i <= |tokens| && tokens[|tokens| - 1].start <= to <= |source|
    decreases |tokens| - i
  {
    if i == |tokens| then source[Min(tokens[i - 1].end, to)..to]
    else NewGapAt(alphanumeric, source, tokens, i) +
         (source[tokens[i].start..Min(tokens[i].end, to)] + After(alphanumeric, source, tokens, i + 1, to))
  }

  /** Every token in its order, with the shortened whitespace in between. */
  function Compacted(alphanumeric: char -> bool, source: string, tokens: seq<Token>, from: nat, to: nat): string
    requires InRange(source, tokens, from, to)
  {
    if tokens == [] then source[from..to]
    else source[from..Min(tokens[0].end, to)] + After(alphanumeric, source, tokens, 1, to)
  }

  /** Splicing the edits keeps the tokens and all other gaps. */
  lemma {:induction false} SplicedIsAfter(alphanumeric: char -> bool, source: string, tokens: seq<Token>, i: nat, cursor: nat, to: nat)
    requires InOrder(source, tokens) && 0 < i <= |tokens| && tokens[|tokens| - 1].start <= to <= |source|
    requires cursor <= tokens[i - 1].end && cursor <= to
    requires Chained(cursor, EditsFrom(alphanumeric, source, tokens, i), to)
    ensures Splice(source, cursor, EditsFrom(alphanumeric, source, tokens, i), to) ==
            source[cursor..Min(tokens[i - 1].end, to)] + After(alphanumeric, source, tokens, i, to)
    decreases |tokens| - i
  {
    hide IsBlank, NewGapAt, Splice, Chained, After, EditsFrom;
    var later := EditsFrom(alphanumeric, source, tokens, i + 1);
    var end := tokens[i - 1].end;
    if i == |tokens| {
      LastEdit(alphanumeric, source, tokens);
      LastAfterIs(alphanumeric, source, tokens, to);
      NoEdit(source, cursor, to);
      Cut(source, cursor, Min(end, to), to);
    } else {
      var start, stop, gap := tokens[i].start, Min(tokens[i].end, to), NewGapAt(alphanumeric, source, tokens, i);
      var rest := After(alphanumeric, source, tokens, i + 1, to);
      AfterStep(alphanumeric, source, tokens, i, to);
      NextEdit(alphanumeric, source, tokens, i, []);
      assert [] + EditsFrom(alphanumeric, source, tokens, i) == EditsFrom(alphanumeric, source, tokens, i);
      assert [] + later == later && [] + [Edit(end, start, gap)] == [Edit(end, start, gap)];
      if IsBlank(Gap(source, tokens, i)) {
        SpliceCons(source, cursor, Edit(end, start, gap), later, to);
        SplicedIsAfter(alphanumeric, source, tokens, i + 1, start, to);
        Assoc(source[cursor..end], gap, source[start..stop] + rest);
      } else {
        UnblankGapStays(alphanumeric, source, tokens, i);
        SplicedIsAfter(alphanumeric, source, tokens, i + 1, cursor, to);
        CutAround(source, cursor, end, start, stop, rest);
      }
    }
  }

  lemma LastAfterIs(alphanumeric: char -> bool, source: string, tokens: seq<Token>, to: nat)
    requires InOrder(source, tokens) && tokens != [] && tokens[|tokens| - 1].start <= to <= |source|
    ensures After(alphanumeric, source, tokens, |tokens|, to) == source[Min(tokens[|tokens| - 1].end, to)..to]
  {
  }

  lemma Cut(source: string, from: nat, at: nat, to: nat)
    requires from <= at <= to <= |source|
    ensures source[from..to] == source[from..at] + source[at..to]
  {
  }

  lemma CutAround(source: string, from: nat, end: nat, start: nat, stop: nat, rest: string)
    requires from <= end <= start <= stop <= |source|
    ensures source[from..stop] + rest == source[from..end] + (source[end..start] + (source[start..stop] + rest))
  {
    Cut(source, from, end, stop);
    Cut(source, end, start, stop);
    Assoc(source[from..end], source[end..stop], rest);
    Assoc(source[end..start], source[start..stop], rest);
  }

  lemma SpliceCons(source: string, cursor: nat, e: Edit, later: seq<Edit>, to: nat)
    requires to <= |source| && Chained(cursor, [e] + later, to)
    ensures cursor <= e.start <= e.end <= to && Chained(e.end, later, to)
    ensures Splice(source, cursor, [e] + later, to) == source[cursor..e.start] + e.text + Splice(source, e.end, later, to)
  {
    assert ([e] + later)[1..] == later;
  }

  lemma UnblankGapStays(alphanumeric: char -> bool, source: string, tokens: seq<Token>, i: nat)
    requires InOrder(source, tokens) && 0 < i < |tokens|
    ensures !IsBlank(Gap(source, tokens, i)) ==> NewGapAt(alphanumeric, source, tokens, i) == Gap(source, tokens, i)
  {
  }

  /** How many tokens end at or before a position; tokens in order are partitioned by that. */
  function EndedBy(tokens: seq<Token>, position: nat): (r: nat)
    ensures r <= |tokens| && (forall i :: 0 <= i < r ==> tokens[i].end <= position)
    ensures r < |tokens| ==> tokens[r].end > position
  {
    if tokens == [] || tokens[0].end > position then 0
    else
      assert forall i :: 1 <= i < |tokens| ==> tokens[i] == tokens[1..][i - 1];
      1 + EndedBy(tokens[1..], position)
  }

  function StartedBefore(tokens: seq<Token>, position: nat): (r: nat)
    ensures r <= |tokens| && (forall i :: 0 <= i < r ==> tokens[i].start < position)
    ensures r < |tokens| ==> tokens[r].start >= position
  {
    if tokens == [] || tokens[0].start >= position then 0
    else
      assert forall i :: 1 <= i < |tokens| ==> tokens[i] == tokens[1..][i - 1];
      1 + StartedBefore(tokens[1..], position)
  }

  /** The tokens between the two partition points of a range. */
  function Selected(tokens: seq<Token>, from: nat, to: nat): seq<Token> {
    if EndedBy(tokens, from) <= StartedBefore(tokens, to) then tokens[EndedBy(tokens, from)..StartedBefore(tokens, to)] else []
  }

  /** Compacts the gaps between the tokens that overlap a range; tokens are never empty. */
  method Compact(alphanumeric: char -> bool, source: string, from: nat, to: nat, tokens: seq<Token>) returns (text: string)
    requires from <= to <= |source| && InOrder(source, tokens) && forall t :: t in tokens ==> t.start < t.end
    ensures var selected := Selected(tokens, from, to);
            && InOrder(source, selected) && (forall t :: t in selected <==> t in tokens && t.end > from && t.start < to)
            && Chained(from, EditsFrom(alphanumeric, source, selected, 1), to)
            && text == Splice(source, from, EditsFrom(alphanumeric, source, selected, 1), to)
            && InRange(source, selected, from, to) && text == Compacted(alphanumeric, source, selected, from, to)
  {
    hide Sort, Accepted, Splice, EditsFrom, Chained, Compacted, InRange, InOrder;
    var start, end := EndedBy(tokens, from), StartedBefore(tokens, to);
    Partitioned(source, tokens, from, to);
    var selected := tokens[start..end];
    var edits := Spacing(alphanumeric, source, selected);
    SelectedEdits(alphanumeric, source, selected, from, to);
    text := Apply(source, from, to, edits);
  }

  lemma Partitioned(source: string, tokens: seq<Token>, from: nat, to: nat)
    requires from <= to && InOrder(source, tokens) && forall t :: t in tokens ==> t.start < t.end
    ensures var start, end := EndedBy(tokens, from), StartedBefore(tokens, to);
            && start <= end && InOrder(source, tokens[start..end])
            && forall t :: t in tokens[start..end] <==> t in tokens && t.end > from && t.start < to
  {
    hide EndedBy, StartedBefore;
    var start, end := EndedBy(tokens, from), StartedBefore(tokens, to);
    assert forall i :: 0 <= i < |tokens| ==> tokens[i] in tokens;
    assert end < |tokens| ==> start <= end;
    SliceInOrder(source, tokens, start, end);
    Bounded(source, tokens, from, to, start, end);
    SliceMembers(tokens, from, to, start, end);
  }

  lemma SliceInOrder(source: string, tokens: seq<Token>, start: nat, end: nat)
    requires start <= end <= |tokens| && InOrder(source, tokens)
    ensures InOrder(source, tokens[start..end])
  {
  }

  /** Behind the first token that reaches into the range all do, and before the last all start. */
  lemma Bounded(source: string, tokens: seq<Token>, from: nat, to: nat, start: nat, end: nat)
    requires start <= end <= |tokens| && InOrder(source, tokens) && forall i :: 0 <= i < |tokens| ==> tokens[i].start < tokens[i].end
    requires start < |tokens| ==> tokens[start].end > from
    requires end < |tokens| ==> tokens[end].start >= to
    ensures forall i :: start <= i < |tokens| ==> tokens[i].end > from
    ensures forall i :: end <= i < |tokens| ==> tokens[i].start >= to
  {
  }

  lemma SliceMembers(tokens: seq<Token>, from: nat, to: nat, start: nat, end: nat)
    requires start <= end <= |tokens|
    requires forall i :: 0 <= i < |tokens| ==> (tokens[i].end > from <==> start <= i)
    requires forall i :: 0 <= i < |tokens| ==> (tokens[i].start < to <==> i < end)
    ensures forall t :: t in tokens[start..end] <==> t in tokens && t.end > from && t.start < to
  {
    forall t | t in tokens && t.end > from && t.start < to ensures t in tokens[start..end] {
      var i :| 0 <= i < |tokens| && tokens[i] == t;
      assert tokens[start..end][i - start] == t;
    }
  }

  /** The spacing edits of overlapping tokens are all applied, with the compacted text as result. */
  lemma SelectedEdits(alphanumeric: char -> bool, source: string, tokens: seq<Token>, from: nat, to: nat)
    requires from <= to <= |source| && InOrder(source, tokens) && forall t :: t in tokens ==> t.end > from && t.start < to
    ensures var edits := EditsFrom(alphanumeric, source, tokens, 1);
            && WellFormed(edits) && Accepted(Sort(edits), from, to) == edits && Chained(from, edits, to)
            && InRange(source, tokens, from, to)
            && Splice(source, from, edits, to) == Compacted(alphanumeric, source, tokens, from, to)
  {
    hide Sort, Accepted, EditsFrom, InOrder, Splice, Chained, After;
    if tokens == [] {
      NoTokens(alphanumeric, source, from, to);
    } else {
      assert tokens[0] in tokens && tokens[|tokens| - 1] in tokens;
      var edits := EditsFrom(alphanumeric, source, tokens, 1);
      SpacingIsChained(alphanumeric, source, tokens, 1, from, to);
      ChainedAreAccepted(edits, from, to);
      SplicedIsAfter(alphanumeric, source, tokens, 1, from, to);
    }
  }

  lemma NoTokens(alphanumeric: char -> bool, source: string, from: nat, to: nat)
    requires from <= to <= |source|
    ensures EditsFrom(alphanumeric, source, [], 1) == [] && Chained(from, [], to)
    ensures Accepted(Sort([]), from, to) == [] && Splice(source, from, [], to) == source[from..to]
    ensures Compacted(alphanumeric, source, [], from, to) == source[from..to]
  {
  }

  lemma TokenBounds(source: string, tokens: seq<Token>, i: nat)
    requires InOrder(source, tokens) && i < |tokens|
    ensures tokens[i].start <= tokens[i].end <= |source|
  {
  }

  // ----- What compaction may not do -----

  /** Only whitespace is shortened, to nothing, one space, or one newline where there was one. */
  lemma OnlyWhitespaceShrinks(alphanumeric: char -> bool, gap: string, left: string, leftVerbatim: bool, right: string, rightVerbatim: bool)
    ensures var shortened := NewGap(alphanumeric, gap, left, leftVerbatim, right, rightVerbatim);
            && |shortened| <= |gap| && (!IsBlank(gap) ==> shortened == gap)
            && (IsBlank(gap) ==> shortened == "" || shortened == " " || (shortened == "\n" && '\n' in gap))
  {
  }

  /** A line break stays one, unless nothing but an opening brace follows. */
  lemma LineBreaksStay(alphanumeric: char -> bool, gap: string, left: string, leftVerbatim: bool, right: string, rightVerbatim: bool)
    requires '\n' in gap
    ensures '\n' in NewGap(alphanumeric, gap, left, leftVerbatim, right, rightVerbatim) <==>
            !IsBlank(gap) || right != "{" || leftVerbatim
  {
  }

  /** Two texts that end and begin alike need a separator alike. */
  lemma SeparatorByEnds(alphanumeric: char -> bool, left: string, right: string, left2: string, right2: string)
    requires left != "" && left2 != "" && right != "" && right2 != ""
    requires left[|left| - 1] == left2[|left2| - 1] && right[0] == right2[0]
    ensures Separator(alphanumeric, left, right) == Separator(alphanumeric, left2, right2)
  {
  }

  /**
   A shortened gap is not shortened any further, unless the text behind it was cut down to an
   opening brace that the line break would not have been dropped for.
   */
  lemma NewGapTwice(alphanumeric: char -> bool, gap: string, left: string, right: string, left2: string, right2: string,
                    leftVerbatim: bool, rightVerbatim: bool)
    requires Separator(alphanumeric, left, right) == Separator(alphanumeric, left2, right2) && (right == "{" ==> right2 == "{")
    ensures var shortened := NewGap(alphanumeric, gap, left, leftVerbatim, right, rightVerbatim);
            var again := NewGap(alphanumeric, shortened, left2, leftVerbatim, right2, rightVerbatim);
            if right2 == "{" && right != "{" && !leftVerbatim && IsBlank(gap) && '\n' in gap
            then shortened == "\n" && again == "" else again == shortened
  {
    hide Separator;
  }

  // ----- Idempotence -----

  /** What is left of a token in the range. */
  function Kept(source: string, tokens: seq<Token>, from: nat, to: nat, k: nat): string
    requires InRange(source, tokens, from, to) && k < |tokens|
  {
    source[Max(from, tokens[k].start)..Min(tokens[k].end, to)]
  }

  /** Where token `k` starts in the compacted text. */
  function MovedStart(alphanumeric: char -> bool, source: string, tokens: seq<Token>, from: nat, to: nat, k: nat): nat
    requires InRange(source, tokens, from, to) && k < |tokens|
  {
    if k == 0 then Max(from, tokens[0].start) - from
    else MovedStart(alphanumeric, source, tokens, from, to, k - 1) + |Kept(source, tokens, from, to, k - 1)|
         + |NewGapAt(alphanumeric, source, tokens, k)|
  }

  /** The same tokens at their places in the compacted text. */
  function Moved(alphanumeric: char -> bool, source: string, tokens: seq<Token>, from: nat, to: nat): seq<Token>
    requires InRange(source, tokens, from, to)
  {
    seq(|tokens|, k requires 0 <= k < |tokens| =>
      var start := MovedStart(alphanumeric, source, tokens, from, to, k);
      Token(start, start + |Kept(source, tokens, from, to, k)|, tokens[k].verbatim))
  }

  /** The compacted text from token `k` on. */
  lemma {:induction false} TextFrom(alphanumeric: char -> bool, source: string, tokens: seq<Token>, from: nat, to: nat, k: nat)
    requires InRange(source, tokens, from, to) && k < |tokens|
    ensures var text, at := Compacted(alphanumeric, source, tokens, from, to), MovedStart(alphanumeric, source, tokens, from, to, k);
            at <= |text| && text[at..] == Kept(source, tokens, from, to, k) + After(alphanumeric, source, tokens, k + 1, to)
  {
    hide NewGapAt, Compacted, After, Kept, InOrder;
    if k == 0 {
      FirstText(alphanumeric, source, tokens, from, to);
    } else {
      var text, at := Compacted(alphanumeric, source, tokens, from, to), MovedStart(alphanumeric, source, tokens, from, to, k);
      var before, kept := MovedStart(alphanumeric, source, tokens, from, to, k - 1), Kept(source, tokens, from, to, k - 1);
      TextFrom(alphanumeric, source, tokens, from, to, k - 1);
      NextText(alphanumeric, source, tokens, from, to, k);
      DropTwo(text, before, kept, NewGapAt(alphanumeric, source, tokens, k),
              Kept(source, tokens, from, to, k) + After(alphanumeric, source, tokens, k + 1, to));
    }
  }

  lemma FirstText(alphanumeric: char -> bool, source: string, tokens: seq<Token>, from: nat, to: nat)
    requires InRange(source, tokens, from, to) && tokens != []
    ensures var text, at := Compacted(alphanumeric, source, tokens, from, to), Max(from, tokens[0].start) - from;
            at <= |text| && text[at..] == Kept(source, tokens, from, to, 0) + After(alphanumeric, source, tokens, 1, to)
  {
    hide After;
    var at, stop, rest := Max(from, tokens[0].start), Min(tokens[0].end, to), After(alphanumeric, source, tokens, 1, to);
    Cut(source, from, at, stop);
    Assoc(source[from..at], source[at..stop], rest);
    DropFront(Compacted(alphanumeric, source, tokens, from, to), source[from..at], source[at..stop] + rest);
  }

  lemma NextText(alphanumeric: char -> bool, source: string, tokens: seq<Token>, from: nat, to: nat, k: nat)
    requires InRange(source, tokens, from, to) && 0 < k < |tokens|
    ensures After(alphanumeric, source, tokens, k, to) ==
            NewGapAt(alphanumeric, source, tokens, k) +
            (Kept(source, tokens, from, to, k) + After(alphanumeric, source, tokens, k + 1, to))
  {
    hide NewGapAt, InOrder;
    LaterAreBehind(source, tokens, from, to, k);
    AfterStep(alphanumeric, source, tokens, k, to);
  }

  lemma LaterAreBehind(source: string, tokens: seq<Token>, from: nat, to: nat, k: nat)
    requires InRange(source, tokens, from, to) && 0 < k < |tokens|
    ensures Max(from, tokens[k].start) == tokens[k].start
  {
  }

  lemma AfterStep(alphanumeric: char -> bool, source: string, tokens: seq<Token>, k: nat, to: nat)
    requires InOrder(source, tokens) && 0 < k < |tokens| && tokens[|tokens| - 1].start <= to <= |source|
    ensures tokens[k].start <= Min(tokens[k].end, to) <= |source|
    ensures After(alphanumeric, source, tokens, k, to) ==
            NewGapAt(alphanumeric, source, tokens, k) +
            (source[tokens[k].start..Min(tokens[k].end, to)] + After(alphanumeric, source, tokens, k + 1, to))
  {
    hide NewGapAt;
  }

  lemma DropFront(text: string, front: string, rest: string)
    requires text == front + rest
    ensures |front| <= |text| && text[|front|..] == rest && text[..|front|] == front
  {
  }

  lemma DropTwo(text: string, at: nat, own: string, gap: string, rest: string)
    requires at <= |text| && text[at..] == own + (gap + rest)
    ensures at + |own| + |gap| <= |text| && text[at + |own| + |gap|..] == rest
    ensures text[at..at + |own|] == own && text[at + |own|..] == gap + rest
    ensures text[at + |own|..at + |own| + |gap|] == gap
  {
    DropFront(text[at..], own, gap + rest);
    assert text[at..][..|own|] == text[at..at + |own|] && text[at..][|own|..] == text[at + |own|..];
    DropFront(text[at + |own|..], gap, rest);
    assert text[at + |own|..][..|gap|] == text[at + |own|..at + |own| + |gap|];
    assert text[at + |own|..][|gap|..] == text[at + |own| + |gap|..];
  }

  /** Token `k` of the compacted text has the text that is kept of the original one, behind the shortened gap. */
  lemma MovedToken(alphanumeric: char -> bool, source: string, tokens: seq<Token>, from: nat, to: nat, k: nat)
    requires InRange(source, tokens, from, to) && k < |tokens|
    ensures var text, t := Compacted(alphanumeric, source, tokens, from, to), Moved(alphanumeric, source, tokens, from, to)[k];
            && t.start <= t.end <= |text| && text[t.start..t.end] == Kept(source, tokens, from, to, k)
            && text[t.end..] == After(alphanumeric, source, tokens, k + 1, to)
    ensures k + 1 < |tokens| ==>
              var text, moved := Compacted(alphanumeric, source, tokens, from, to), Moved(alphanumeric, source, tokens, from, to);
              && moved[k].end <= moved[k + 1].start <= |text|
              && text[moved[k].end..moved[k + 1].start] == NewGapAt(alphanumeric, source, tokens, k + 1)
  {
    hide NewGapAt, Compacted, Kept, InOrder, After;
    var text, at := Compacted(alphanumeric, source, tokens, from, to), MovedStart(alphanumeric, source, tokens, from, to, k);
    var own, rest := Kept(source, tokens, from, to, k), After(alphanumeric, source, tokens, k + 1, to);
    TextFrom(alphanumeric, source, tokens, from, to, k);
    if k + 1 < |tokens| {
      NextText(alphanumeric, source, tokens, from, to, k + 1);
      DropTwo(text, at, own, NewGapAt(alphanumeric, source, tokens, k + 1),
              Kept(source, tokens, from, to, k + 1) + After(alphanumeric, source, tokens, k + 2, to));
    } else {
      assert own + rest == own + ([] + rest);
      DropTwo(text, at, own, [], rest);
    }
  }

  // ----- Which gaps stay, character by character -----

  /** Operators and comments that two neighbouring characters would form. */
  const OPERATORS: set<string> :=
    {"++", "--", "//", "/*", "*/", "&&", "||", "::", "..", "??", "?.", "?[", "<<", "<=", ">>", ">=", "==", "=>",
     "!=", "+=", "-=", "*=", "/=", "%=", "&=", "|=", "^=", "->"}

  /** What would be read together: words, operators, numbers, and quotes with a prefix. */
  predicate ReadTogether(alphanumeric: char -> bool, a: char, b: char) {
    var wordA, wordB := alphanumeric(a) || a in "_@#", alphanumeric(b) || b in "_@#";
    var quoteA, quoteB := a in "'\"#@$", b in "'\"#@$";
    || [a, b] in OPERATORS
    || (wordA && (wordB || quoteB)) || (quoteA && wordB)
    || (a in "0123456789" && b == '.') || (a == '.' && b in "0123456789")
  }

  lemma JoinsExactly(a: char, b: char)
    ensures Joins(a, b) <==> [a, b] in OPERATORS
  {
  }

  lemma SeparatorExactly(alphanumeric: char -> bool, left: string, right: string)
    requires left != "" && right != ""
    ensures Separator(alphanumeric, left, right) <==> ReadTogether(alphanumeric, left[|left| - 1], right[0])
  {
    hide Joins;
    JoinsExactly(left[|left| - 1], right[0]);
  }

  /**
   The whole of what lies between two tokens of the compacted text: gaps with other text in them
   stay; a line break stays unless only an opening brace follows; and on one line a space is left
   exactly around text kept verbatim and between what would be read together.
   */
  lemma GapsExactly(alphanumeric: char -> bool, source: string, tokens: seq<Token>, from: nat, to: nat, k: nat)
    requires InRange(source, tokens, from, to) && 0 < k < |tokens|
    requires tokens[k - 1].start < tokens[k - 1].end && tokens[k].start < tokens[k].end
    ensures var text, moved := Compacted(alphanumeric, source, tokens, from, to), Moved(alphanumeric, source, tokens, from, to);
            var l, r := tokens[k - 1], tokens[k];
            var gap := source[l.end..r.start];
            && moved[k - 1].end <= moved[k].start <= |text|
            && text[moved[k - 1].end..moved[k].start] ==
               if gap == "" || exists c :: c in gap && !QueryLexer.IsWhitespace(c) then gap
               else if '\n' in gap then (if source[r.start..r.end] == "{" && !l.verbatim then "" else "\n")
               else if l.verbatim || r.verbatim || ReadTogether(alphanumeric, source[l.end - 1], source[r.start]) then " "
               else ""
  {
    hide Compacted, InOrder, MovedStart, Kept, After, Separator, ReadTogether;
    var l, r := tokens[k - 1], tokens[k];
    TokenBounds(source, tokens, k - 1);
    TokenBounds(source, tokens, k);
    MovedToken(alphanumeric, source, tokens, from, to, k - 1);
    SeparatorExactly(alphanumeric, Text(source, l), Text(source, r));
  }

  /**
   Tokens that were apart stay apart exactly in these cases; so they do whenever they would be read
   together, an opening brace on a new line included.
   */
  lemma SeparatedStayApart(alphanumeric: char -> bool, source: string, tokens: seq<Token>, from: nat, to: nat, k: nat)
    requires InRange(source, tokens, from, to) && 0 < k < |tokens| && tokens[k - 1].end < tokens[k].start
    requires tokens[k - 1].start < tokens[k - 1].end && tokens[k].start < tokens[k].end
    ensures var l, r, moved := tokens[k - 1], tokens[k], Moved(alphanumeric, source, tokens, from, to);
            var together := ReadTogether(alphanumeric, source[l.end - 1], source[r.start]);
            var gap := source[l.end..r.start];
            && (moved[k - 1].end < moved[k].start <==>
                || (exists c :: c in gap && !QueryLexer.IsWhitespace(c))
                || ('\n' in gap && (source[r.start..r.end] != "{" || l.verbatim))
                || ('\n' !in gap && (l.verbatim || r.verbatim || together)))
            && (together && !alphanumeric('{') ==> moved[k - 1].end < moved[k].start)
  {
    hide Compacted, InOrder, MovedStart, Kept, After, ReadTogether;
    GapsExactly(alphanumeric, source, tokens, from, to, k);
    TokenBounds(source, tokens, k - 1);
    TokenBounds(source, tokens, k);
    if !alphanumeric('{') { BraceIsAlone(alphanumeric, source[tokens[k - 1].end - 1]); }
  }

  /** Nothing is read together with an opening brace behind it. */
  lemma BraceIsAlone(alphanumeric: char -> bool, a: char)
    requires !alphanumeric('{')
    ensures !ReadTogether(alphanumeric, a, '{')
  {
  }

  lemma MovedInOrder(alphanumeric: char -> bool, source: string, tokens: seq<Token>, from: nat, to: nat)
    requires InRange(source, tokens, from, to)
    ensures InOrder(Compacted(alphanumeric, source, tokens, from, to), Moved(alphanumeric, source, tokens, from, to))
  {
    hide Compacted, NewGapAt, InOrder, InRange, MovedStart, Kept;
    var text, moved := Compacted(alphanumeric, source, tokens, from, to), Moved(alphanumeric, source, tokens, from, to);
    forall k | 0 <= k < |moved|
      ensures moved[k].start <= moved[k].end <= |text| && (k + 1 < |moved| ==> moved[k].end <= moved[k + 1].start)
    {
      MovedToken(alphanumeric, source, tokens, from, to, k);
    }
    StepwiseInOrder(text, moved);
  }

  lemma StepwiseInOrder(text: string, tokens: seq<Token>)
    requires forall k :: 0 <= k < |tokens| ==> tokens[k].start <= tokens[k].end <= |text|
    requires forall k :: 0 <= k < |tokens| - 1 ==> tokens[k].end <= tokens[k + 1].start
    ensures InOrder(text, tokens)
  {
    forall j | 0 <= j < |tokens| ensures forall i :: 0 <= i < j ==> tokens[i].end <= tokens[j].start {
      EarlierEnds(tokens, j);
    }
  }

  lemma {:induction false} EarlierEnds(tokens: seq<Token>, j: nat)
    requires j < |tokens| && forall k :: 0 <= k < |tokens| ==> tokens[k].start <= tokens[k].end
    requires forall k :: 0 <= k < |tokens| - 1 ==> tokens[k].end <= tokens[k + 1].start
    ensures forall i :: 0 <= i < j ==> tokens[i].end <= tokens[j].start
  {
    if j > 0 { EarlierEnds(tokens, j - 1); }
  }

  /** What lies inside the range is kept whole. */
  lemma InsideIsKept(source: string, tokens: seq<Token>, from: nat, to: nat, k: nat)
    requires InRange(source, tokens, from, to) && Inside(tokens, from, to) && k < |tokens|
    ensures Kept(source, tokens, from, to, k) == Text(source, tokens[k])
  {
  }

  /** Every token has text in the range. */
  ghost predicate Overlapping(tokens: seq<Token>, from: nat, to: nat) {
    forall t :: t in tokens ==> t.start < t.end && t.end > from && t.start < to
  }

  /** The last token is cut down to an opening brace behind a line break. */
  predicate BraceIsCut(source: string, tokens: seq<Token>, from: nat, to: nat, k: nat)
    requires InRange(source, tokens, from, to) && 0 < k < |tokens|
  {
    && Kept(source, tokens, from, to, k) == "{" && Text(source, tokens[k]) != "{"
    && !tokens[k - 1].verbatim && IsBlank(Gap(source, tokens, k)) && '\n' in Gap(source, tokens, k)
  }

  /** Cutting a token at an end of the range leaves what a neighbour sees of it. */
  lemma KeptEnds(source: string, tokens: seq<Token>, from: nat, to: nat, i: nat)
    requires InRange(source, tokens, from, to) && Overlapping(tokens, from, to) && 0 < i < |tokens|
    ensures var l, l2, r, r2 := Text(source, tokens[i - 1]), Kept(source, tokens, from, to, i - 1),
                                Text(source, tokens[i]), Kept(source, tokens, from, to, i);
            && l != "" && l2 != "" && r != "" && r2 != "" && l[|l| - 1] == l2[|l2| - 1] && r[0] == r2[0]
            && (r == "{" ==> r2 == "{") && (i + 1 < |tokens| ==> r2 == r)
  {
    assert tokens[i - 1] in tokens && tokens[i] in tokens;
  }

  /** The moved tokens fill the compacted text as the tokens fill the range. */
  lemma MovedInRange(alphanumeric: char -> bool, source: string, tokens: seq<Token>, from: nat, to: nat)
    requires InRange(source, tokens, from, to)
    ensures var text, moved := Compacted(alphanumeric, source, tokens, from, to), Moved(alphanumeric, source, tokens, from, to);
            InRange(text, moved, 0, |text|) && Inside(moved, 0, |text|)
  {
    hide Compacted, InOrder, After, Kept, MovedStart;
    MovedInOrder(alphanumeric, source, tokens, from, to);
    if tokens != [] { MovedToken(alphanumeric, source, tokens, from, to, |tokens| - 1); }
  }

  /** A gap that has been shortened stays as it is, or loses the line break in front of a cut brace. */
  lemma GapTwice(alphanumeric: char -> bool, source: string, tokens: seq<Token>, from: nat, to: nat, i: nat)
    requires InRange(source, tokens, from, to) && Overlapping(tokens, from, to) && 0 < i < |tokens|
    ensures var text, moved := Compacted(alphanumeric, source, tokens, from, to), Moved(alphanumeric, source, tokens, from, to);
            var once := NewGapAt(alphanumeric, source, tokens, i);
            && InOrder(text, moved)
            && NewGapAt(alphanumeric, text, moved, i) == (if BraceIsCut(source, tokens, from, to, i) then "" else once)
            && (BraceIsCut(source, tokens, from, to, i) ==> i + 1 == |tokens| && |once| == 1)
  {
    hide Compacted, NewGap, InOrder, Overlapping, MovedStart, Kept, After, Separator, IsBlank;
    MovedInOrder(alphanumeric, source, tokens, from, to);
    MovedToken(alphanumeric, source, tokens, from, to, i - 1);
    MovedToken(alphanumeric, source, tokens, from, to, i);
    KeptEnds(source, tokens, from, to, i);
    var l, r := tokens[i - 1], tokens[i];
    TokenBounds(source, tokens, i - 1);
    TokenBounds(source, tokens, i);
    var l2, r2 := Kept(source, tokens, from, to, i - 1), Kept(source, tokens, from, to, i);
    SeparatorByEnds(alphanumeric, Text(source, l), Text(source, r), l2, r2);
    NewGapTwice(alphanumeric, Gap(source, tokens, i), Text(source, l), Text(source, r), l2, r2, l.verbatim, r.verbatim);
  }

  /** Compacting the compacted text finds nothing more to shorten behind any token but a cut brace. */
  lemma {:induction false} AfterTwice(alphanumeric: char -> bool, source: string, tokens: seq<Token>, from: nat, to: nat, i: nat)
    requires InRange(source, tokens, from, to) && Overlapping(tokens, from, to) && 0 < i <= |tokens|
    ensures var text, moved := Compacted(alphanumeric, source, tokens, from, to), Moved(alphanumeric, source, tokens, from, to);
            && InRange(text, moved, 0, |text|)
            && (if i < |tokens| && BraceIsCut(source, tokens, from, to, |tokens| - 1)
                then |After(alphanumeric, text, moved, i, |text|)| < |After(alphanumeric, source, tokens, i, to)|
                else After(alphanumeric, text, moved, i, |text|) == After(alphanumeric, source, tokens, i, to))
    decreases |tokens| - i
  {
    hide Compacted, NewGapAt, Inside, Overlapping, MovedStart, Kept, After, BraceIsCut;
    var text, moved := Compacted(alphanumeric, source, tokens, from, to), Moved(alphanumeric, source, tokens, from, to);
    MovedInRange(alphanumeric, source, tokens, from, to);
    MovedToken(alphanumeric, source, tokens, from, to, i - 1);
    if i == |tokens| {
      LastAfter(alphanumeric, text, moved);
    } else {
      AfterTwice(alphanumeric, source, tokens, from, to, i + 1);
      GapTwice(alphanumeric, source, tokens, from, to, i);
      MovedToken(alphanumeric, source, tokens, from, to, i);
      NextText(alphanumeric, source, tokens, from, to, i);
      NextText(alphanumeric, text, moved, 0, |text|, i);
      InsideIsKept(text, moved, 0, |text|, i);
    }
  }

  lemma LastAfter(alphanumeric: char -> bool, text: string, tokens: seq<Token>)
    requires InOrder(text, tokens) && tokens != []
    ensures After(alphanumeric, text, tokens, |tokens|, |text|) == text[tokens[|tokens| - 1].end..]
  {
    hide After;
    LastAfterIs(alphanumeric, text, tokens, |text|);
  }

  /**
   Compaction is idempotent exactly if the end of the range does not cut the last token down to
   an opening brace behind a line break; so it is for all tokens inside the range.
   */
  lemma CompactedTwice(alphanumeric: char -> bool, source: string, tokens: seq<Token>, from: nat, to: nat)
    requires InRange(source, tokens, from, to) && Overlapping(tokens, from, to)
    ensures var text, moved := Compacted(alphanumeric, source, tokens, from, to), Moved(alphanumeric, source, tokens, from, to);
            && InRange(text, moved, 0, |text|)
            && (Compacted(alphanumeric, text, moved, 0, |text|) == text <==>
                !(|tokens| > 1 && BraceIsCut(source, tokens, from, to, |tokens| - 1)))
            && (Inside(tokens, from, to) ==> Compacted(alphanumeric, text, moved, 0, |text|) == text)
  {
    hide NewGapAt, After, InRange, Inside, Overlapping, Kept, MovedStart, BraceIsCut;
    var text, moved := Compacted(alphanumeric, source, tokens, from, to), Moved(alphanumeric, source, tokens, from, to);
    MovedInRange(alphanumeric, source, tokens, from, to);
    if tokens != [] {
      AfterTwice(alphanumeric, source, tokens, from, to, 1);
      MovedToken(alphanumeric, source, tokens, from, to, 0);
      assert text == text[..moved[0].end] + text[moved[0].end..];
      if |tokens| > 1 && Inside(tokens, from, to) { InsideIsNotCut(source, tokens, from, to, |tokens| - 1); }
    }
  }

  lemma InsideIsNotCut(source: string, tokens: seq<Token>, from: nat, to: nat, k: nat)
    requires InRange(source, tokens, from, to) && Inside(tokens, from, to) && 0 < k < |tokens|
    ensures !BraceIsCut(source, tokens, from, to, k)
  {
    InsideIsKept(source, tokens, from, to, k);
  }
}
