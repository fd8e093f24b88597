/**
 The rolling-row edit distance of `src/navigation.rs` with its two early exits.
 The reference is a minimum over edit scripts in which no character is edited twice
 (optimal string alignment), not the recurrence that the rows follow.
 */
module EditDistance {
  import opened Common

  datatype Edit = Keep | Substitute(c: char) | Insert(c: char) | Delete | Transpose

  /** How many characters an edit uses up. */
  function Uses(e: Edit): nat {
    match e
    case Insert(_) => 0
    case Transpose => 2
    case _ => 1
  }

  /** What an edit makes of the characters it uses up. */
  function Makes(e: Edit, piece: seq<char>): seq<char>
    requires |piece| == Uses(e)
  {
    match e
    case Keep => piece
    case Substitute(c) => [c]
    case Insert(c) => [c]
    case Delete => []
    case Transpose => [piece[1], piece[0]]
  }

  /** The text a script makes of `a`, its last edit acting on the end of `a`. */
  function Apply(s: seq<Edit>, a: seq<char>): Option<seq<char>> {
    if s == [] then (if a == [] then Some([]) else None)
    else
      var e := s[|s| - 1];
      var n := |a| - Uses(e);
      if n < 0 then None else Append(Apply(s[..|s| - 1], a[..n]), Makes(e, a[n..]))
  }

  function Append(r: Option<seq<char>>, tail: seq<char>): Option<seq<char>> {
    if r.None? then None else Some(r.value + tail)
  }

  /** Keeping a character is free, every other edit costs one. */
  function Cost(s: seq<Edit>): nat {
    if s == [] then 0
    else Cost(s[..|s| - 1]) + (if s[|s| - 1] == Keep then 0 else 1)
  }

  /** `d` is the least cost of a script that turns `a` into `b`. */
  ghost predicate IsDistance(a: seq<char>, b: seq<char>, d: nat) {
    && (exists s :: Apply(s, a) == Some(b) && Cost(s) == d)
    && (forall s :: Apply(s, a) == Some(b) ==> d <= Cost(s))
  }

  /** Whether the last two of `i` and `j` characters are each other's swap. */
  predicate Swapped(a: seq<char>, b: seq<char>, i: nat, j: nat)
    requires i <= |a| && j <= |b|
  {
    i >= 2 && j >= 2 && a[i - 1] == b[j - 2] && a[i - 2] == b[j - 1]
  }

  /** The cheapest last edit, given the cost with each kind of edit last. */
  function Best(diagonal: nat, left: nat, above: nat, swap: Option<nat>): nat {
    var step := Min(Min(diagonal, left), above);
    if swap.Some? then Min(step, swap.value) else step
  }

  /** The recurrence over prefixes of `i` and `j` characters that the rows tabulate. */
  function Osa(a: seq<char>, b: seq<char>, i: nat, j: nat): nat
    requires i <= |a| && j <= |b|
  {
    if i == 0 then j
    else if j == 0 then i
    else Best(Osa(a, b, i - 1, j - 1) + (if a[i - 1] == b[j - 1] then 0 else 1),
              Osa(a, b, i, j - 1) + 1,
              Osa(a, b, i - 1, j) + 1,
              if Swapped(a, b, i, j) then Some(Osa(a, b, i - 2, j - 2) + 1) else None)
  }

  lemma OsaStep(a: seq<char>, b: seq<char>, i: nat, j: nat)
    requires i <= |a| && j <= |b|
    ensures i == 0 ==> Osa(a, b, i, j) == j
    ensures j == 0 ==> Osa(a, b, i, j) == i
    ensures i > 0 && j > 0 ==>
              Osa(a, b, i, j) == Best(Osa(a, b, i - 1, j - 1) + (if a[i - 1] == b[j - 1] then 0 else 1),
                                      Osa(a, b, i, j - 1) + 1,
                                      Osa(a, b, i - 1, j) + 1,
                                      if Swapped(a, b, i, j) then Some(Osa(a, b, i - 2, j - 2) + 1) else None)
  {
    hide Min, Best;
  }

  /** Edit `e` makes the last `n` of `j` characters of `b` out of the end of `i` characters of `a`. */
  predicate Fits(e: Edit, a: seq<char>, b: seq<char>, i: nat, j: nat, n: nat)
    requires i <= |a| && j <= |b|
  {
    Uses(e) <= i && n <= j && Makes(e, a[i - Uses(e)..i]) == b[j - n..j]
  }

  lemma FitsExactly(e: Edit, a: seq<char>, b: seq<char>, i: nat, j: nat, n: nat)
    requires i <= |a| && j <= |b|
    ensures Fits(e, a, b, i, j, n) <==>
            match e
            case Keep => n == 1 && i >= 1 && j >= 1 && a[i - 1] == b[j - 1]
            case Substitute(c) => n == 1 && i >= 1 && j >= 1 && c == b[j - 1]
            case Insert(c) => n == 1 && j >= 1 && c == b[j - 1]
            case Delete => n == 0 && i >= 1
            case Transpose => n == 2 && Swapped(a, b, i, j)
  {
    if n == 1 && j >= 1 { assert b[j - 1..j] == [b[j - 1]]; }
    if n == 2 && j >= 2 { assert b[j - 2..j] == [b[j - 2], b[j - 1]]; }
    if e == Keep && i >= 1 { assert a[i - 1..i] == [a[i - 1]]; }
  }

  /** No script beats the recurrence. */
  lemma {:induction false} ScriptCostsAtLeast(s: seq<Edit>, a: seq<char>, b: seq<char>, i: nat, j: nat)
    requires i <= |a| && j <= |b| && Apply(s, a[..i]) == Some(b[..j])
    ensures Osa(a, b, i, j) <= Cost(s)
    decreases |s|
  {
    hide Osa, Fits, Apply, Cost, Uses;
    if s == [] {
      NothingCostsNothing(a, b, i, j);
    } else {
      var e := s[|s| - 1];
      var n := LastEdit(s, a, b, i, j);
      LastEditPays(e, a, b, i, j, n);
      ScriptCostsAtLeast(s[..|s| - 1], a, b, i - Uses(e), j - n);
      CostStep(s);
    }
  }

  lemma NothingCostsNothing(a: seq<char>, b: seq<char>, i: nat, j: nat)
    requires i <= |a| && j <= |b| && Apply([], a[..i]) == Some(b[..j])
    ensures Osa(a, b, i, j) == 0
  {
    hide Osa;
    OsaStep(a, b, i, j);
  }

  lemma CostStep(s: seq<Edit>)
    requires s != []
    ensures Cost(s) == Cost(s[..|s| - 1]) + (if s[|s| - 1] == Keep then 0 else 1)
  {
  }

  /** Undoing an edit at the end saves no more than that edit costs. */
  lemma LastEditPays(e: Edit, a: seq<char>, b: seq<char>, i: nat, j: nat, n: nat)
    requires i <= |a| && j <= |b| && Fits(e, a, b, i, j, n)
    ensures Osa(a, b, i, j) <= Osa(a, b, i - Uses(e), j - n) + (if e == Keep then 0 else 1)
  {
    hide Osa, Fits;
    FitsExactly(e, a, b, i, j, n);
    OsaBounds(a, b, i, j);
  }

  /** Takes the last edit off a script; it made the last `n` characters. */
  lemma LastEdit(s: seq<Edit>, a: seq<char>, b: seq<char>, i: nat, j: nat) returns (n: nat)
    requires i <= |a| && j <= |b| && s != [] && Apply(s, a[..i]) == Some(b[..j])
    ensures Fits(s[|s| - 1], a, b, i, j, n) && Uses(s[|s| - 1]) <= i && n <= j
    ensures Apply(s[..|s| - 1], a[..i - Uses(s[|s| - 1])]) == Some(b[..j - n])
  {
    var e := s[|s| - 1];
    var k := i - Uses(e);
    assert a[..i][..k] == a[..k] && a[..i][k..] == a[k..i];
    var tail := Makes(e, a[k..i]);
    n := |tail|;
    TakeTail(Apply(s[..|s| - 1], a[..k]), tail, b, j);
  }

  lemma TakeTail(r: Option<seq<char>>, tail: seq<char>, b: seq<char>, j: nat)
    requires j <= |b| && Append(r, tail) == Some(b[..j])
    ensures |tail| <= j && r == Some(b[..j - |tail|]) && b[j - |tail|..j] == tail
  {
    var w := r.value + tail;
    assert w == b[..j] && |w| == j;
    assert b[..j - |tail|] == b[..j][..j - |tail|] == r.value;
    assert b[j - |tail|..j] == b[..j][j - |tail|..] == tail;
  }

  /** An edit at the end never pays off by more than its own cost. */
  lemma OsaBounds(a: seq<char>, b: seq<char>, i: nat, j: nat)
    requires i <= |a| && j <= |b|
    ensures i > 0 ==> Osa(a, b, i, j) <= Osa(a, b, i - 1, j) + 1
    ensures j > 0 ==> Osa(a, b, i, j) <= Osa(a, b, i, j - 1) + 1
    ensures i > 0 && j > 0 ==> Osa(a, b, i, j) <= Osa(a, b, i - 1, j - 1) + 1
    ensures i > 0 && j > 0 && a[i - 1] == b[j - 1] ==> Osa(a, b, i, j) <= Osa(a, b, i - 1, j - 1)
    ensures Swapped(a, b, i, j) ==> Osa(a, b, i, j) <= Osa(a, b, i - 2, j - 2) + 1
  {
    hide Osa;
    OsaStep(a, b, i, j);
    if i > 0 { OsaStep(a, b, i - 1, j); }
    if j > 0 { OsaStep(a, b, i, j - 1); }
  }

  /** Some script attains the recurrence. */
  lemma {:induction false} ScriptExists(a: seq<char>, b: seq<char>, i: nat, j: nat) returns (s: seq<Edit>)
    requires i <= |a| && j <= |b|
    ensures Apply(s, a[..i]) == Some(b[..j]) && Cost(s) == Osa(a, b, i, j)
  {
    hide Osa, Apply, Cost, Fits;
    if i == 0 && j == 0 {
      OsaStep(a, b, i, j);
      s := NoEdits();
    } else {
      var e, n := CheapestLast(a, b, i, j);
      s := ScriptExists(a, b, i - Uses(e), j - n);
      s := Extend(s, e, a, b, i, j, n);
    }
  }

  /** The last edit that the recurrence chose. */
  lemma CheapestLast(a: seq<char>, b: seq<char>, i: nat, j: nat) returns (e: Edit, n: nat)
    requires i <= |a| && j <= |b| && i + j > 0
    ensures Fits(e, a, b, i, j, n) && Uses(e) <= i && n <= j && Uses(e) + n > 0
    ensures Osa(a, b, i, j) == Osa(a, b, i - Uses(e), j - n) + (if e == Keep then 0 else 1)
  {
    hide Osa, Fits;
    OsaStep(a, b, i, j);
    var d := Osa(a, b, i, j);
    if i > 0 && (j == 0 || d == Osa(a, b, i - 1, j) + 1) {
      OsaStep(a, b, i - 1, j);
      e, n := Delete, 0;
    } else if j > 0 && (i == 0 || d == Osa(a, b, i, j - 1) + 1) {
      OsaStep(a, b, i, j - 1);
      e, n := Insert(b[j - 1]), 1;
    } else if Swapped(a, b, i, j) && d == Osa(a, b, i - 2, j - 2) + 1 {
      e, n := Transpose, 2;
    } else {
      e, n := if a[i - 1] == b[j - 1] then Keep else Substitute(b[j - 1]), 1;
    }
    FitsExactly(e, a, b, i, j, n);
  }

  lemma NoEdits() returns (s: seq<Edit>)
    ensures forall a: seq<char> :: a == [] ==> Apply(s, a) == Some(a)
    ensures Cost(s) == 0
  {
    s := [];
  }

  /** Puts an edit at the end of a script. */
  lemma Extend(init: seq<Edit>, e: Edit, a: seq<char>, b: seq<char>, i: nat, j: nat, n: nat)
    returns (s: seq<Edit>)
    requires i <= |a| && j <= |b| && Fits(e, a, b, i, j, n)
    requires Apply(init, a[..i - Uses(e)]) == Some(b[..j - n])
    ensures Apply(s, a[..i]) == Some(b[..j])
    ensures Cost(s) == Cost(init) + (if e == Keep then 0 else 1)
  {
    s := init + [e];
    var k := i - Uses(e);
    assert s[..|s| - 1] == init && a[..i][..k] == a[..k] && a[..i][k..] == a[k..i];
    assert b[..j] == b[..j - n] + b[j - n..j];
  }

  lemma OsaIsDistance(a: seq<char>, b: seq<char>)
    ensures IsDistance(a, b, Osa(a, b, |a|, |b|))
  {
    hide Osa, Apply, Cost;
    assert a[..|a|] == a && b[..|b|] == b;
    var s := ScriptExists(a, b, |a|, |b|);
    forall t | Apply(t, a) == Some(b) ensures Osa(a, b, |a|, |b|) <= Cost(t) {
      ScriptCostsAtLeast(t, a, b, |a|, |b|);
    }
  }

  lemma DistanceIsUnique(a: seq<char>, b: seq<char>, d: nat, e: nat)
    requires IsDistance(a, b, d) && IsDistance(a, b, e)
    ensures d == e
  {
  }

  /** Swapping the two texts does not change the distance. */
  lemma {:induction false} OsaIsSymmetric(a: seq<char>, b: seq<char>, i: nat, j: nat)
    requires i <= |a| && j <= |b|
    ensures Osa(a, b, i, j) == Osa(b, a, j, i)
  {
    hide Osa;
    OsaStep(a, b, i, j);
    OsaStep(b, a, j, i);
    if i > 0 && j > 0 {
      OsaIsSymmetric(a, b, i - 1, j - 1);
      OsaIsSymmetric(a, b, i - 1, j);
      OsaIsSymmetric(a, b, i, j - 1);
      if Swapped(a, b, i, j) { OsaIsSymmetric(a, b, i - 2, j - 2); }
    }
  }

  /** The first early exit: the distance is at least the difference of the lengths. */
  lemma {:induction false} LengthsDiffer(a: seq<char>, b: seq<char>, i: nat, j: nat)
    requires i <= |a| && j <= |b|
    ensures i - j <= Osa(a, b, i, j) && j - i <= Osa(a, b, i, j)
  {
    hide Osa;
    OsaStep(a, b, i, j);
    if i > 0 && j > 0 {
      LengthsDiffer(a, b, i - 1, j - 1);
      LengthsDiffer(a, b, i - 1, j);
      LengthsDiffer(a, b, i, j - 1);
      if Swapped(a, b, i, j) { LengthsDiffer(a, b, i - 2, j - 2); }
    }
  }

  ghost predicate RowExceeds(a: seq<char>, b: seq<char>, i: nat, cutoff: nat)
    requires i <= |a|
  {
    forall j: nat :: j <= |b| ==> Osa(a, b, i, j) > cutoff
  }

  /**
   The second early exit: once a whole row exceeds the cutoff every later entry does. A
   transposition jumps over the row, but costs no less than the entry it jumps over.
   */
  lemma {:induction false} RowMinimumIsFinal(a: seq<char>, b: seq<char>, row: nat, i: nat, j: nat, cutoff: nat)
    requires row <= i <= |a| && j <= |b| && RowExceeds(a, b, row, cutoff)
    ensures Osa(a, b, i, j) > cutoff
    decreases i, j
  {
    hide Osa;
    OsaStep(a, b, i, j);
    if row < i {
      RowMinimumIsFinal(a, b, row, i - 1, j, cutoff);
      if j > 0 {
        RowMinimumIsFinal(a, b, row, i - 1, j - 1, cutoff);
        RowMinimumIsFinal(a, b, row, i, j - 1, cutoff);
        if Swapped(a, b, i, j) { OsaBounds(a, b, i - 1, j - 1); }
      } else {
        OsaStep(a, b, i - 1, 0);
      }
    }
  }

  /** `row` holds the recurrence's values for `i` characters of `a` from column `from` to `to`. */
  ghost predicate Tabulates(row: seq<nat>, a: seq<char>, b: seq<char>, i: nat, from: nat, to: nat)
    requires i <= |a|
  {
    |row| == |b| + 1 && forall k :: from <= k < to && k <= |b| ==> row[k] == Osa(a, b, i, k)
  }

  method Minimum(row: array<nat>) returns (least: nat)
    requires row.Length > 0
    ensures least in row[..]
    ensures forall k :: 0 <= k < row.Length ==> least <= row[k]
  {
    least := row[0];
    for k := 1 to row.Length
      invariant least in row[..]
      invariant forall l :: 0 <= l < k ==> least <= row[l]
    {
      if row[k] < least { least := row[k]; }
    }
  }

  /** The inner loop: overwrites row `i` with row `i + 1`, given row `i - 1` as `older`. */
  method NextRow(a: seq<char>, b: seq<char>, i: nat, row: array<nat>, older: seq<nat>)
    requires i < |a| && row.Length == |b| + 1
    requires Tabulates(row[..], a, b, i, 0, |b| + 1)
    requires i > 0 ==> Tabulates(older, a, b, i - 1, 0, |b| + 1)
    modifies row
    ensures Tabulates(row[..], a, b, i + 1, 0, |b| + 1)
  {
    hide Osa, Min;
    var diagonal := row[0];
    OsaStep(a, b, i + 1, 0);
    OsaStep(a, b, i, 0);
    row[0] := i + 1;
    for j := 0 to |b|
      invariant diagonal == Osa(a, b, i, j)
      invariant Tabulates(row[..], a, b, i + 1, 0, j + 1)
      invariant Tabulates(row[..], a, b, i, j + 1, |b| + 1)
    {
      OsaStep(a, b, i + 1, j + 1);
      var above := row[j + 1];
      row[j + 1] := Min(Min(diagonal + (if a[i] != b[j] then 1 else 0), row[j] + 1), above + 1);
      if i > 0 && j > 0 && a[i] == b[j - 1] && a[i - 1] == b[j] {
        row[j + 1] := Min(row[j + 1], older[j - 1] + 1);
      }
      diagonal := above;
    }
  }

  /** What the cutoff promises, in terms of edit scripts. */
  lemma Verdict(a: seq<char>, b: seq<char>, cutoff: nat)
    ensures Osa(a, b, |a|, |b|) <= cutoff ==> IsDistance(a, b, Osa(a, b, |a|, |b|))
    ensures Osa(a, b, |a|, |b|) > cutoff ==> forall s :: Apply(s, a) == Some(b) ==> Cost(s) > cutoff
  {
    OsaIsDistance(a, b);
  }

  method EditDistance(a: seq<char>, b: seq<char>, cutoff: nat) returns (r: Option<nat>)
    ensures r.Some? ==> r.value <= cutoff && IsDistance(a, b, r.value)
    ensures r.None? ==> forall s :: Apply(s, a) == Some(b) ==> Cost(s) > cutoff
  {
    hide Apply, Cost, Osa;
    Verdict(a, b, cutoff);
    LengthsDiffer(a, b, |a|, |b|);
    if |a| - |b| > cutoff || |b| - |a| > cutoff {
      return None;
    }
    var row := new nat[|b| + 1](k => k);
    FirstRow(a, b, row[..]);
    var older := row[..];
    for i := 0 to |a|
      invariant Tabulates(row[..], a, b, i, 0, |b| + 1)
      invariant i > 0 ==> Tabulates(older, a, b, i - 1, 0, |b| + 1)
    {
      var oldRow := row[..];
      NextRow(a, b, i, row, older);
      var least := Minimum(row);
      if least > cutoff {
        assert RowExceeds(a, b, i + 1, cutoff);
        RowMinimumIsFinal(a, b, i + 1, |a|, |b|, cutoff);
        return None;
      }
      older := oldRow;
    }
    return if row[|b|] <= cutoff then Some(row[|b|]) else None;
  }

  lemma FirstRow(a: seq<char>, b: seq<char>, row: seq<nat>)
    requires |row| == |b| + 1 && forall k :: 0 <= k <= |b| ==> row[k] == k
    ensures Tabulates(row, a, b, 0, 0, |b| + 1)
  {
    hide Osa;
    forall k: nat | k <= |b| ensures Osa(a, b, 0, k) == k { OsaStep(a, b, 0, k); }
  }
}
