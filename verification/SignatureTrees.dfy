/**
 Which trees can be written at all, and a canonical way to write each of them: shortest
 integers and classes rather than value types. Reading that back yields the same tree, and
 every tree that is ever read can be written.
 */
module SignatureTrees {
  import opened Common
  import opened SignatureSyntax
  import opened SignatureGrammar

  // ----- Canonical integers, tokens and names -----

  function Shortest(n: nat): (c: Compressed)
    requires n < BITS29
    ensures FitsWidth(c) && c.value == n
  {
    Compressed(n, if n < 0x80 then 7 else if n < BITS14 then 14 else 29)
  }

  const BITS28 := 0x1000_0000

  /** Signed values are rotated within the shortest width whose range they fit. */
  function ShortestSigned(v: int): (c: Compressed)
    requires -BITS28 <= v < BITS28
    ensures FitsWidth(c) && Signed(c) == v
  {
    if -0x40 <= v < 0x40 then Compressed(Rotated(v, 0x40), 7)
    else if -0x2000 <= v < 0x2000 then Compressed(Rotated(v, 0x2000), 14)
    else Compressed(Rotated(v, BITS28), 29)
  }

  function Rotated(v: int, half: int): (r: nat)
    requires -half <= v < half
    ensures r < 2 * half && r / 2 - (if r % 2 == 1 then half else 0) == v
  {
    if v >= 0 then 2 * v else 2 * v + 2 * half + 1
  }

  predicate IsTypeToken(token: nat) {
    token / BITS24 in {0x01, 0x02, 0x1b} && token % BITS24 != 0
  }

  function Coded(token: nat): (c: Compressed)
    requires IsTypeToken(token)
    ensures IsToken(c) && Token(c) == token
  {
    var table := if token / BITS24 == 0x02 then 0 else if token / BITS24 == 0x01 then 1 else 2;
    var n := token % BITS24 * 4 + table;
    assert n % 4 == table && n / 4 == token % BITS24;
    assert token == token / BITS24 * BITS24 + token % BITS24;
    Shortest(n)
  }

  function SimpleCode(name: string, code: nat): (r: Option<byte>)
    requires code < 0x20
    ensures r.Some? ==> KindOf(r.value) == Simple && SimpleName(r.value) == name
    ensures r.None? ==> forall c: byte :: c <= code && KindOf(c) == Simple ==> SimpleName(c) != name
  {
    if KindOf(code) == Simple && SimpleName(code) == name then Some(code)
    else if code == 0 then None
    else SimpleCode(name, code - 1)
  }

  // ----- Writable trees -----

  predicate Writable(t: TypeSignature, depth: nat)
    decreases t
  {
    depth <= DEPTH_LIMIT &&
    match t
    case Primitive(name) => SimpleCode(name, 0x1f).Some?
    case Named(token) => IsTypeToken(token)
    case GenericType(number) => number < BITS29
    case GenericMethod(number) => number < BITS29
    case Pointer(element) => Writable(element, depth + 1)
    case ByRef(element) => Writable(element, depth + 1)
    case Vector(element) => Writable(element, depth + 1)
    case Pinned(element) => Writable(element, depth + 1)
    case Array(element, rank, sizes, lowerBounds) =>
      Writable(element, depth + 1) && ShapeWritable(rank, sizes, lowerBounds)
    case Generic(base, arguments) =>
      base.Named? && IsTypeToken(base.token) && |arguments| < BITS29 && AllWritable(arguments, depth + 1)
    case Function(m) => MethodWritable(m, depth + 1)
    case Modified(_, modifier, element) => IsTypeToken(modifier) && Writable(element, depth + 1)
  }

  predicate ShapeWritable(rank: nat, sizes: seq<nat>, lowerBounds: seq<int>) {
    && 1 <= rank <= 32 && |sizes| <= rank && |lowerBounds| <= rank
    && (forall n :: n in sizes ==> n < BITS29)
    && (forall v :: v in lowerBounds ==> -BITS28 <= v < BITS28)
  }

  predicate AllWritable(ts: seq<TypeSignature>, depth: nat)
    decreases ts
  {
    ts == [] || (Writable(ts[0], depth) && AllWritable(ts[1..], depth))
  }

  predicate MethodWritable(m: SignatureMethod, depth: nat)
    decreases m
  {
    && depth <= DEPTH_LIMIT && IsConvention(m.flags)
    && m.genericCount <= (if IsGeneric(m.flags) then 65535 else 0)
    && |m.params| < BITS29
    && Writable(m.returnType, depth + 1) && AllWritable(m.params, depth + 1)
    && (m.sentinel.Some? ==> IsVararg(m.flags) && m.sentinel.value < |m.params|)
  }

  function ShortestAll(ns: seq<nat>): (r: seq<Compressed>)
    requires forall n :: n in ns ==> n < BITS29
    ensures |r| == |ns| && (forall c :: c in r ==> FitsWidth(c)) && Values(r) == ns
  {
    seq(|ns|, i requires 0 <= i < |ns| => assert ns[i] in ns; Shortest(ns[i]))
  }

  function ShortestSignedAll(vs: seq<int>): (r: seq<Compressed>)
    requires forall v :: v in vs ==> -BITS28 <= v < BITS28
    ensures |r| == |vs| && (forall c :: c in r ==> FitsWidth(c)) && SignedValues(r) == vs
  {
    seq(|vs|, i requires 0 <= i < |vs| => assert vs[i] in vs; ShortestSigned(vs[i]))
  }

  // ----- Canonical syntax: a right inverse of meaning -----

  function Canonical(t: TypeSignature, depth: nat): (c: Syntax)
    requires Writable(t, depth)
    ensures WellFormed(c, depth)
    decreases t
  {
    hide FitsWidth, ShapeWritable, ShapeWellFormed, Shortest, Coded, Values, SignedValues;
    match t
    case Primitive(name) => SimpleType(SimpleCode(name, 0x1f).value)
    case Named(token) => ClassType(0x12, Coded(token))
    case GenericType(number) => VariableType(0x13, Shortest(number))
    case GenericMethod(number) => VariableType(0x1e, Shortest(number))
    case Pointer(element) => UnaryType(0x0f, Canonical(element, depth + 1))
    case ByRef(element) => UnaryType(0x10, Canonical(element, depth + 1))
    case Vector(element) => UnaryType(0x1d, Canonical(element, depth + 1))
    case Pinned(element) => UnaryType(0x45, Canonical(element, depth + 1))
    case Array(element, rank, sizes, lowerBounds) =>
      ArrayType(Canonical(element, depth + 1), CanonicalShape(rank, sizes, lowerBounds))
    case Generic(base, arguments) =>
      InstanceType(0x12, Coded(base.token), Shortest(|arguments|), CanonicalAll(arguments, depth + 1))
    case Function(m) => FunctionType(CanonicalMethod(m, depth + 1))
    case Modified(required, modifier, element) =>
      ModifiedType(if required then 0x1f else 0x20, Coded(modifier), Canonical(element, depth + 1))
  }

  function CanonicalShape(rank: nat, sizes: seq<nat>, lowerBounds: seq<int>): (a: Shape)
    requires ShapeWritable(rank, sizes, lowerBounds)
    ensures ShapeWellFormed(a)
    ensures a.rank.value == rank && Values(a.sizes) == sizes && SignedValues(a.bounds) == lowerBounds
  {
    Shape(Shortest(rank), Shortest(|sizes|), ShortestAll(sizes), Shortest(|lowerBounds|), ShortestSignedAll(lowerBounds))
  }

  function CanonicalAll(ts: seq<TypeSignature>, depth: nat): (cs: seq<Syntax>)
    requires AllWritable(ts, depth)
    ensures |cs| == |ts| && AllWellFormed(cs, depth)
    decreases ts
  {
    if ts == [] then []
    else
      var rest := CanonicalAll(ts[1..], depth);
      var cs := [Canonical(ts[0], depth)] + rest;
      assert cs[1..] == rest;
      cs
  }

  function CanonicalMethod(m: SignatureMethod, depth: nat): (c: MethodSyntax)
    requires MethodWritable(m, depth)
    ensures MethodWellFormed(c, depth)
    decreases m
  {
    MethodSyntax(m.flags, if IsGeneric(m.flags) then Some(Shortest(m.genericCount)) else None, Shortest(|m.params|),
                 Canonical(m.returnType, depth + 1), CanonicalAll(m.params, depth + 1), m.sentinel)
  }

  lemma {:induction false} CanonicalMeans(t: TypeSignature, depth: nat)
    requires Writable(t, depth)
    ensures Meaning(Canonical(t, depth), depth) == t
    decreases t
  {
    hide FitsWidth, Shortest, ShapeWritable, SimpleCode, CanonicalAll, CanonicalMethod, AllWritable, MethodWritable, WellFormed, Coded;
    match t
    case Primitive(_) =>
    case Named(_) =>
    case GenericType(_) =>
    case GenericMethod(_) =>
    case Generic(_, arguments) => CanonicalAllMean(arguments, depth + 1);
    case Function(m) => CanonicalMethodMeans(m, depth + 1);
    case _ => CanonicalMeans(t.element, depth + 1);
  }

  lemma {:induction false} CanonicalAllMean(ts: seq<TypeSignature>, depth: nat)
    requires AllWritable(ts, depth)
    ensures Meanings(CanonicalAll(ts, depth), depth) == ts
    decreases ts
  {
    hide Canonical, Writable, Meaning, WellFormed;
    if ts != [] {
      CanonicalMeans(ts[0], depth);
      CanonicalAllMean(ts[1..], depth);
      assert CanonicalAll(ts, depth)[1..] == CanonicalAll(ts[1..], depth);
    }
  }

  lemma {:induction false} CanonicalMethodMeans(m: SignatureMethod, depth: nat)
    requires MethodWritable(m, depth)
    ensures MethodMeaning(CanonicalMethod(m, depth), depth) == m
    decreases m
  {
    hide Canonical, Writable, Meaning, WellFormed, CanonicalAll, AllWellFormed, AllWritable, Meanings;
    CanonicalMeans(m.returnType, depth + 1);
    CanonicalAllMean(m.params, depth + 1);
  }

  // ----- Every tree that is read is writable -----

  lemma TokenIsTypeToken(c: Compressed)
    requires IsToken(c)
    ensures IsTypeToken(Token(c))
  {
    var table := if c.value % 4 == 0 then 0x02 else if c.value % 4 == 1 then 0x01 else 0x1b;
    assert Token(c) == table * BITS24 + c.value / 4;
    assert Token(c) / BITS24 == table && Token(c) % BITS24 == c.value / 4;
  }

  lemma SimpleIsNamed(code: byte)
    requires KindOf(code) == Simple
    ensures SimpleCode(SimpleName(code), 0x1f).Some?
  {
  }

  lemma SignedRange(c: Compressed)
    requires FitsWidth(c)
    ensures -BITS28 <= Signed(c) < BITS28
  {
  }

  lemma {:induction false} MeaningIsWritable(c: Syntax, depth: nat)
    requires WellFormed(c, depth)
    ensures Writable(Meaning(c, depth), depth)
    decreases c
  {
    hide Token, SimpleCode, SimpleName, KindOf, ShapeWritable, AllWritable, MethodWritable, Meanings, MethodMeaning, IsTypeToken, AllWellFormed, MethodWellFormed;
    match c
    case SimpleType(code) => SimpleIsNamed(code);
    case UnaryType(_, element) => MeaningIsWritable(element, depth + 1);
    case ClassType(_, token) => TokenIsTypeToken(token);
    case VariableType(_, _) =>
    case ArrayType(element, shape) =>
      MeaningIsWritable(element, depth + 1);
      ShapeIsWritable(shape);
    case InstanceType(_, token, _, arguments) =>
      TokenIsTypeToken(token);
      MeaningsAreWritable(arguments, depth + 1);
    case FunctionType(m) => MethodMeaningIsWritable(m, depth + 1);
    case ModifiedType(_, token, element) =>
      TokenIsTypeToken(token);
      MeaningIsWritable(element, depth + 1);
  }

  lemma ShapeIsWritable(a: Shape)
    requires ShapeWellFormed(a)
    ensures ShapeWritable(a.rank.value, Values(a.sizes), SignedValues(a.bounds))
  {
    hide Signed;
    forall i | 0 <= i < |a.bounds| ensures -BITS28 <= Signed(a.bounds[i]) < BITS28 {
      assert a.bounds[i] in a.bounds;
      SignedRange(a.bounds[i]);
    }
    forall i | 0 <= i < |a.sizes| ensures a.sizes[i].value < BITS29 {
      assert a.sizes[i] in a.sizes;
    }
  }

  lemma {:induction false} MeaningsAreWritable(cs: seq<Syntax>, depth: nat)
    requires AllWellFormed(cs, depth)
    ensures AllWritable(Meanings(cs, depth), depth)
    decreases cs
  {
    hide WellFormed, Meaning, Writable;
    if cs != [] {
      MeaningIsWritable(cs[0], depth);
      MeaningsAreWritable(cs[1..], depth);
      assert Meanings(cs, depth)[1..] == Meanings(cs[1..], depth);
    }
  }

  lemma {:induction false} MethodMeaningIsWritable(m: MethodSyntax, depth: nat)
    requires MethodWellFormed(m, depth)
    ensures MethodWritable(MethodMeaning(m, depth), depth)
    decreases m
  {
    hide WellFormed, Meaning, Writable, AllWellFormed, Meanings, AllWritable, IsConvention, IsVararg, IsGeneric;
    MeaningIsWritable(m.returnType, depth + 1);
    MeaningsAreWritable(m.params, depth + 1);
  }

  // ----- Size -----

  function Nodes(t: TypeSignature): nat
    decreases t
  {
    match t
    case Primitive(_) => 1
    case Named(_) => 1
    case GenericType(_) => 1
    case GenericMethod(_) => 1
    case Generic(_, arguments) => 2 + AllNodes(arguments)
    case Function(m) => 1 + MethodNodes(m)
    case _ => 1 + Nodes(t.element)
  }

  function AllNodes(ts: seq<TypeSignature>): nat
    decreases ts
  {
    if ts == [] then 0 else Nodes(ts[0]) + AllNodes(ts[1..])
  }

  function MethodNodes(m: SignatureMethod): nat
    decreases m
  {
    1 + Nodes(m.returnType) + AllNodes(m.params)
  }

  /** Leaves count one; every other node counts one more than all that is below it. */
  lemma NodesExactly(t: TypeSignature, ts: seq<TypeSignature>)
    ensures t.Primitive? || t.Named? || t.GenericType? || t.GenericMethod? ==> Nodes(t) == 1
    ensures t.Pointer? || t.ByRef? || t.Vector? || t.Array? || t.Modified? || t.Pinned? ==> Nodes(t) == 1 + Nodes(t.element)
    ensures t.Generic? && t.base.Named? ==> Nodes(t) == 1 + Nodes(t.base) + AllNodes(t.arguments)
    ensures t.Function? ==> Nodes(t) == 2 + Nodes(t.target.returnType) + AllNodes(t.target.params)
    ensures AllNodes([]) == 0 && AllNodes([t] + ts) == Nodes(t) + AllNodes(ts)
  {
    assert ([t] + ts)[1..] == ts;
  }

  /** Every node of a decoded tree took at least one byte. */
  lemma {:induction false} NodesTakeBytes(c: Syntax, depth: nat)
    requires WellFormed(c, depth)
    ensures Nodes(Meaning(c, depth)) <= |Bytes(c, depth)|
    decreases c
  {
    hide FitsWidth, IntBytes, ShapeBytes, ShapeWellFormed, AllNodes, MethodNodes, AllBytes, MethodBytes, AllWellFormed, MethodWellFormed, Meanings, MethodMeaning, Token;
    match c
    case SimpleType(_) =>
    case ClassType(_, _) =>
    case VariableType(_, _) =>
    case InstanceType(_, _, _, arguments) => AllNodesTakeBytes(arguments, depth + 1);
    case FunctionType(m) => MethodNodesTakeBytes(m, depth + 1);
    case _ => NodesTakeBytes(c.element, depth + 1);
  }

  lemma {:induction false} AllNodesTakeBytes(cs: seq<Syntax>, depth: nat)
    requires AllWellFormed(cs, depth)
    ensures AllNodes(Meanings(cs, depth)) <= |AllBytes(cs, depth)|
    decreases cs
  {
    hide WellFormed, Meaning, Bytes, Nodes;
    if cs != [] {
      NodesTakeBytes(cs[0], depth);
      AllNodesTakeBytes(cs[1..], depth);
      assert Meanings(cs, depth)[1..] == Meanings(cs[1..], depth);
    }
  }

  lemma {:induction false} ParamNodesTakeBytes(cs: seq<Syntax>, depth: nat, sentinel: Option<nat>)
    requires AllWellFormed(cs, depth)
    ensures AllNodes(Meanings(cs, depth)) <= |ParamsBytes(cs, depth, sentinel)|
    decreases cs
  {
    hide WellFormed, Meaning, Bytes, Nodes;
    if cs != [] {
      NodesTakeBytes(cs[0], depth);
      ParamNodesTakeBytes(cs[1..], depth, OneOff(sentinel));
      assert Meanings(cs, depth)[1..] == Meanings(cs[1..], depth);
    }
  }

  lemma {:induction false} MethodNodesTakeBytes(m: MethodSyntax, depth: nat)
    requires MethodWellFormed(m, depth)
    ensures MethodNodes(MethodMeaning(m, depth)) <= |MethodBytes(m, depth)|
    decreases m
  {
    hide WellFormed, Meaning, Bytes, Nodes, AllNodes, ParamsBytes, Meanings, AllWellFormed, IntBytes, GenericsBytes;
    NodesTakeBytes(m.returnType, depth + 1);
    ParamNodesTakeBytes(m.params, depth + 1, m.sentinel);
  }
}
