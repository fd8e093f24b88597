/**
 The line and column arithmetic of `src/model.rs`. A source is a sequence of characters,
 each one to four bytes wide; a byte offset on a character boundary is a sum of widths.
 */
module Positions {
  import opened Common

  /** The width of a character in UTF-8. */
  function Width(c: char): nat {
    var code := c as int;
    if code < 0x80 then 1 else if code < 0x800 then 2 else if code < 0x10000 then 3 else 4
  }

  /** The bytes of a character in UTF-8: section 3 of RFC 3629. */
  function Utf8(c: char): seq<byte> {
    var code := c as int;
    if code <= 0x7f then [code]
    else if code <= 0x7ff then [0xc0 + code / 0x40, 0x80 + code % 0x40]
    else if code <= 0xffff then [0xe0 + code / 0x1000, 0x80 + code / 0x40 % 0x40, 0x80 + code % 0x40]
    else [0xf0 + code / 0x4_0000, 0x80 + code / 0x1000 % 0x40, 0x80 + code / 0x40 % 0x40, 0x80 + code % 0x40]
  }

  function Encoded(text: seq<char>): seq<byte> {
    if text == [] then [] else Encoded(text[..|text| - 1]) + Utf8(text[|text| - 1])
  }

  /** Byte offsets are lengths of the encoded text in front of them. */
  lemma {:induction false} ByteAtIsEncodedLength(text: seq<char>, n: nat)
    requires n <= |text|
    ensures ByteAt(text, n) == |Encoded(text[..n])|
  {
    if n > 0 {
      ByteAtIsEncodedLength(text, n - 1);
      assert text[..n][..n - 1] == text[..n - 1];
    }
  }

  /** The byte offset of the boundary in front of character `n`. */
  function ByteAt(text: seq<char>, n: nat): nat
    requires n <= |text|
  {
    if n == 0 then 0 else ByteAt(text, n - 1) + Width(text[n - 1])
  }

  lemma {:induction false} ByteAtGrows(text: seq<char>, m: nat, n: nat)
    requires m < n <= |text|
    ensures ByteAt(text, m) < ByteAt(text, n)
  {
    if m < n - 1 { ByteAtGrows(text, m, n - 1); }
  }

  /** The character a byte offset points at, if it is on a boundary; slicing fails otherwise. */
  function CharAt(text: seq<char>, n: nat, byte: nat): (r: Option<nat>)
    requires n <= |text|
    ensures r.Some? ==> r.value <= n && ByteAt(text, r.value) == byte
  {
    if ByteAt(text, n) == byte then Some(n) else if n == 0 then None else CharAt(text, n - 1, byte)
  }

  lemma {:induction false} CharAtByteAt(text: seq<char>, n: nat, m: nat)
    requires n <= m <= |text|
    ensures CharAt(text, m, ByteAt(text, n)) == Some(n)
  {
    if n < m {
      ByteAtGrows(text, n, m);
      CharAtByteAt(text, n, m - 1);
    }
  }

  // ----- From boundary to line and column -----

  function Newlines(text: seq<char>, n: nat): nat
    requires n <= |text|
  {
    if n == 0 then 0 else Newlines(text, n - 1) + (if text[n - 1] == '\n' then 1 else 0)
  }

  /** The boundary behind the last newline in front of boundary `n`. */
  function LineStart(text: seq<char>, n: nat): (start: nat)
    requires n <= |text|
    ensures start <= n
    ensures start == 0 || text[start - 1] == '\n'
    ensures forall k :: start <= k < n ==> text[k] != '\n'
  {
    if n == 0 || text[n - 1] == '\n' then n else LineStart(text, n - 1)
  }

  function PositionAt(text: seq<char>, n: nat): (nat, nat)
    requires n <= |text|
  {
    (Newlines(text, n) + 1, n - LineStart(text, n) + 1)
  }

  /** Positions count from one, a newline begins the next line, and any other character the next column. */
  lemma PositionSteps(text: seq<char>, n: nat)
    requires n < |text|
    ensures PositionAt(text, 0) == (1, 1)
    ensures var (line, column) := PositionAt(text, n);
            PositionAt(text, n + 1) == if text[n] == '\n' then (line + 1, 1) else (line, column + 1)
  {
  }

  // ----- From line and column to boundary -----

  function FindNewline(text: seq<char>, from: nat): (r: Option<nat>)
    requires from <= |text|
    ensures r.Some? ==> from <= r.value < |text| && text[r.value] == '\n' && forall k :: from <= k < r.value ==> text[k] != '\n'
    ensures r.None? ==> forall k :: from <= k < |text| ==> text[k] != '\n'
    decreases |text| - from
  {
    if from == |text| then None
    else if text[from] == '\n' then Some(from)
    else FindNewline(text, from + 1)
  }

  function SkipLines(text: seq<char>, from: nat, count: nat): (r: Option<nat>)
    requires from <= |text|
    ensures r.Some? ==> from <= r.value <= |text|
    decreases count
  {
    if count == 0 then Some(from)
    else
      var newline := FindNewline(text, from);
      if newline.None? then None else SkipLines(text, newline.value + 1, count - 1)
  }

  /** Where the row that starts at a boundary ends, its newline included. */
  function RowEnd(text: seq<char>, start: nat): nat
    requires start <= |text|
  {
    var newline := FindNewline(text, start);
    if newline.Some? then newline.value + 1 else |text|
  }

  function OffsetAt(text: seq<char>, line: nat, column: nat): Option<nat> {
    var start := SkipLines(text, 0, if line == 0 then 0 else line - 1);
    if start.None? || column == 0 || start.value + column > RowEnd(text, start.value) then None
    else Some(start.value + column - 1)
  }

  lemma {:induction false} SkipOneMore(text: seq<char>, from: nat, count: nat)
    requires from <= |text|
    ensures var r := SkipLines(text, from, count);
            SkipLines(text, from, count + 1) ==
            if r.None? || FindNewline(text, r.value).None? then None
            else Some(FindNewline(text, r.value).value + 1)
    decreases count
  {
    if count > 0 && FindNewline(text, from).Some? {
      SkipOneMore(text, FindNewline(text, from).value + 1, count - 1);
    }
  }

  /** The first newline at or behind a line start is the one that ends the line. */
  lemma FindNewlineAt(text: seq<char>, from: nat, k: nat)
    requires from <= k < |text| && text[k] == '\n' && forall l :: from <= l < k ==> text[l] != '\n'
    ensures FindNewline(text, from) == Some(k)
  {
  }

  lemma {:induction false} SkipsToLineStart(text: seq<char>, n: nat)
    requires n <= |text|
    ensures SkipLines(text, 0, Newlines(text, n)) == Some(LineStart(text, n))
  {
    if n > 0 {
      SkipsToLineStart(text, n - 1);
      if text[n - 1] == '\n' {
        FindNewlineAt(text, LineStart(text, n - 1), n - 1);
        SkipOneMore(text, 0, Newlines(text, n - 1));
      }
    }
  }

  /** Skipping lines ends at a line start behind exactly that many newlines. */
  lemma {:induction false} SkipsExactly(text: seq<char>, from: nat, count: nat)
    requires from <= |text| && LineStart(text, from) == from
    ensures var r := SkipLines(text, from, count);
            r.Some? ==> LineStart(text, r.value) == r.value && Newlines(text, r.value) == Newlines(text, from) + count
    decreases count
  {
    if count > 0 && FindNewline(text, from).Some? {
      var k := FindNewline(text, from).value;
      SameLine(text, from, k);
      SkipsExactly(text, k + 1, count - 1);
    }
  }

  /** Without a newline in between two boundaries are on the same line. */
  lemma {:induction false} SameLine(text: seq<char>, start: nat, n: nat)
    requires start <= n <= |text| && forall k :: start <= k < n ==> text[k] != '\n'
    ensures Newlines(text, n) == Newlines(text, start) && LineStart(text, n) == LineStart(text, start)
  {
    if start < n { SameLine(text, start, n - 1); }
  }

  /** The position of every boundary before the end leads back to it. */
  lemma OffsetOfPosition(text: seq<char>, n: nat)
    requires n < |text|
    ensures OffsetAt(text, PositionAt(text, n).0, PositionAt(text, n).1) == Some(n)
  {
    SkipsToLineStart(text, n);
  }

  /** Every line and column that has an offset is its position; line 0 is read as line 1. */
  lemma PositionOfOffset(text: seq<char>, line: nat, column: nat)
    requires OffsetAt(text, line, column).Some?
    ensures OffsetAt(text, line, column).value < |text|
    ensures PositionAt(text, OffsetAt(text, line, column).value) == (if line == 0 then 1 else line, column)
  {
    var start := SkipLines(text, 0, if line == 0 then 0 else line - 1).value;
    SkipsExactly(text, 0, if line == 0 then 0 else line - 1);
    SameLine(text, start, start + column - 1);
  }

  /** The pairs that have an offset are exactly the positions of boundaries before the end. */
  lemma OffsetExists(text: seq<char>, line: nat, column: nat)
    ensures line > 0 ==> (OffsetAt(text, line, column).Some? <==> exists n :: 0 <= n < |text| && PositionAt(text, n) == (line, column))
  {
    if line > 0 && OffsetAt(text, line, column).Some? { PositionOfOffset(text, line, column); }
    if n :| 0 <= n < |text| && PositionAt(text, n) == (line, column) { OffsetOfPosition(text, n); }
  }

  // ----- The byte-level functions -----

  function Position(text: seq<char>, byte: nat): (nat, nat)
    requires CharAt(text, |text|, byte).Some?
  {
    PositionAt(text, CharAt(text, |text|, byte).value)
  }

  /** The byte length of the text in front of the next newline, as a search in a slice reports it. */
  method Find(text: seq<char>, from: nat) returns (r: Option<nat>, k: nat)
    requires from <= |text|
    ensures r.None? <==> FindNewline(text, from).None?
    ensures r.Some? ==> FindNewline(text, from) == Some(k) && ByteAt(text, from) + r.value == ByteAt(text, k)
  {
    var distance: nat := 0;
    k := from;
    while k < |text| && text[k] != '\n'
      invariant from <= k <= |text| && ByteAt(text, from) + distance == ByteAt(text, k)
      invariant FindNewline(text, from) == FindNewline(text, k)
    {
      distance := distance + Width(text[k]);
      k := k + 1;
    }
    r := if k < |text| then Some(distance) else None;
  }

  /** The byte length of the first `count` characters of a row. */
  method Widths(text: seq<char>, from: nat, count: nat) returns (bytes: nat)
    requires from + count <= |text|
    ensures ByteAt(text, from) + bytes == ByteAt(text, from + count)
  {
    bytes := 0;
    for i := 0 to count
      invariant ByteAt(text, from) + bytes == ByteAt(text, from + i)
    {
      bytes := bytes + Width(text[from + i]);
    }
  }

  method Offset(text: seq<char>, line: nat, column: nat) returns (r: Option<nat>)
    ensures r.Some? <==> OffsetAt(text, line, column).Some?
    ensures r.Some? ==> OffsetAt(text, line, column).value <= |text| && r.value == ByteAt(text, OffsetAt(text, line, column).value)
  {
    hide ByteAt;
    var start: nat, at: nat := 0, 0;
    ghost var count: nat := if line == 0 then 0 else line - 1;
    ByteAtStart(text);
    for skipped := 1 to if line == 0 then 1 else line
      invariant at <= |text| && start == ByteAt(text, at)
      invariant SkipLines(text, 0, count) == SkipLines(text, at, count - (skipped - 1))
    {
      var distance, k := Find(text, at);
      if distance.None? { return None; }
      NewlineIsOneByte(text, k);
      start, at := start + distance.value + 1, k + 1;
    }
    var newline := FindNewline(text, at);
    var end := if newline.Some? then newline.value + 1 else |text|;
    if column == 0 || at + column > end { return None; }
    var bytes := Widths(text, at, column - 1);
    return Some(start + bytes);
  }

  lemma ByteAtStart(text: seq<char>)
    ensures ByteAt(text, 0) == 0
  {
  }

  lemma NewlineIsOneByte(text: seq<char>, k: nat)
    requires k < |text| && text[k] == '\n'
    ensures ByteAt(text, k + 1) == ByteAt(text, k) + 1
  {
  }

  /** Bytes before the end and positions are in bijection: there and back. */
  lemma RoundTripFromByte(text: seq<char>, n: nat)
    requires n < |text|
    ensures CharAt(text, |text|, ByteAt(text, n)).Some?
    ensures var (line, column) := Position(text, ByteAt(text, n)); OffsetAt(text, line, column) == Some(n)
  {
    CharAtByteAt(text, n, |text|);
    OffsetOfPosition(text, n);
  }

  /** And back and there, for every pair that has an offset. */
  lemma RoundTripFromPosition(text: seq<char>, line: nat, column: nat)
    requires OffsetAt(text, line, column).Some?
    ensures var n := OffsetAt(text, line, column).value;
            && n < |text| && CharAt(text, |text|, ByteAt(text, n)).Some?
            && Position(text, ByteAt(text, n)) == (if line == 0 then 1 else line, column)
  {
    PositionOfOffset(text, line, column);
    CharAtByteAt(text, OffsetAt(text, line, column).value, |text|);
  }
}
