/**
 The language of signatures as a parsing function on the bytes that remain, and the proof
 that it accepts exactly the well-formed concrete syntax: sound, complete, and therefore
 unambiguous, stable under appended bytes and prefix-free.
 */
module SignatureGrammar {
  import opened Common
  import opened SignatureSyntax

  /** What was read, and the bytes behind it. */
  datatype Parsed<+T> = Parsed(value: T, rest: seq<byte>)

  // ----- Integers, tokens and shapes -----

  /** Four base-256 digits, the most significant one first. */
  function Big(a: nat, b: nat, c: nat, d: nat): nat {
    a * BITS24 + b * 0x1_0000 + c * 0x100 + d
  }

  function ParseInt(s: seq<byte>): (r: Option<Parsed<Compressed>>)
    ensures r.Some? ==> FitsWidth(r.value.value) && |r.value.rest| < |s|
  {
    if s == [] then None
    else if s[0] < 0x80 then Some(Parsed(Compressed(s[0], 7), s[1..]))
    else if s[0] < 0xc0 then
      if |s| < 2 then None else Some(Parsed(Compressed(Big(0, 0, s[0] - 0x80, s[1]), 14), s[2..]))
    else if s[0] < 0xe0 then
      if |s| < 4 then None
      else Some(Parsed(Compressed(Big(s[0] - 0xc0, s[1], s[2], s[3]), 29), s[4..]))
    else None
  }

  lemma IntSound(s: seq<byte>)
    ensures ParseInt(s).Some? ==> s == IntBytes(ParseInt(s).value.value) + ParseInt(s).value.rest
  {
    if ParseInt(s).Some? {
      var n := ParseInt(s).value.value;
      if n.width == 29 {
        Digits(s[0] - 0xc0, s[1], s[2], s[3]);
        assert IntBytes(n) == s[..4];
      } else {
        assert IntBytes(n) == if n.width == 7 then s[..1] else s[..2];
      }
    }
  }

  /** Base-256 digits can be read back. */
  lemma Digits(a: nat, b: nat, c: nat, d: nat)
    requires a < 0x100 && b < 0x100 && c < 0x100 && d < 0x100
    ensures var n := Big(a, b, c, d);
            && n / BITS24 == a && n / 0x1_0000 % 0x100 == b && n / 0x100 % 0x100 == c && n % 0x100 == d
  {
    var n := Big(a, b, c, d);
    assert n / 0x100 == a * 0x1_0000 + b * 0x100 + c;
    assert n / 0x1_0000 == a * 0x100 + b;
  }

  lemma IntComplete(n: Compressed, rest: seq<byte>)
    requires FitsWidth(n)
    ensures ParseInt(IntBytes(n) + rest) == Some(Parsed(n, rest))
  {
    var s := IntBytes(n) + rest;
    assert s[|IntBytes(n)|..] == rest;
    if n.width == 29 { FromDigits(n.value); }
  }

  lemma FromDigits(n: nat)
    ensures n == Big(n / BITS24, n / 0x1_0000 % 0x100, n / 0x100 % 0x100, n % 0x100)
  {
    assert n / 0x1_0000 == n / 0x100 / 0x100 && n / BITS24 == n / 0x1_0000 / 0x100;
  }

  function ParseToken(s: seq<byte>): (r: Option<Parsed<Compressed>>)
    ensures r.Some? ==> IsToken(r.value.value) && |r.value.rest| < |s|
  {
    var n :- ParseInt(s);
    if IsToken(n.value) then Some(n) else None
  }

  /** A count may not exceed the number of bytes that are left. */
  function ParseCount(s: seq<byte>): (r: Option<Parsed<Compressed>>)
    ensures r.Some? ==> FitsWidth(r.value.value) && |r.value.rest| < |s|
  {
    var n :- ParseInt(s);
    if n.value.value <= |n.rest| then Some(n) else None
  }

  function ParseInts(s: seq<byte>, n: nat): (r: Option<Parsed<seq<Compressed>>>)
    ensures r.Some? ==> |r.value.value| == n && (forall i :: i in r.value.value ==> FitsWidth(i)) && |r.value.rest| <= |s|
    decreases n
  {
    if n == 0 then Some(Parsed([], s))
    else
      var first :- ParseInt(s);
      var others :- ParseInts(first.rest, n - 1);
      Some(Parsed([first.value] + others.value, others.rest))
  }

  lemma {:induction false} IntsSound(s: seq<byte>, n: nat)
    ensures ParseInts(s, n).Some? ==> s == AllIntBytes(ParseInts(s, n).value.value) + ParseInts(s, n).value.rest
    decreases n
  {
    hide IntBytes, ParseInt;
    var r := ParseInts(s, n);
    if n > 0 && r.Some? {
      var first := ParseInt(s).value;
      var others := ParseInts(first.rest, n - 1).value;
      IntSound(s);
      IntsSound(first.rest, n - 1);
      assert r.value.value[1..] == others.value;
    }
  }

  lemma {:induction false} IntsComplete(ns: seq<Compressed>, rest: seq<byte>)
    requires forall n :: n in ns ==> FitsWidth(n)
    ensures ParseInts(AllIntBytes(ns) + rest, |ns|) == Some(Parsed(ns, rest))
  {
    hide IntBytes, ParseInt;
    if ns == [] {
      assert AllIntBytes(ns) + rest == rest;
    } else {
      IntComplete(ns[0], AllIntBytes(ns[1..]) + rest);
      IntsComplete(ns[1..], rest);
      Assoc(IntBytes(ns[0]), AllIntBytes(ns[1..]), rest);
      assert ns == [ns[0]] + ns[1..];
    }
  }

  function ParseShape(s: seq<byte>): (r: Option<Parsed<Shape>>)
    ensures r.Some? ==> ShapeWellFormed(r.value.value) && |r.value.rest| < |s|
  {
    var rank :- ParseInt(s);
    if !(1 <= rank.value.value <= 32) then None else
    var sizeCount :- ParseCount(rank.rest);
    if sizeCount.value.value > rank.value.value then None else
    var sizes :- ParseInts(sizeCount.rest, sizeCount.value.value);
    var boundCount :- ParseCount(sizes.rest);
    if boundCount.value.value > rank.value.value then None else
    var bounds :- ParseInts(boundCount.rest, boundCount.value.value);
    Some(Parsed(Shape(rank.value, sizeCount.value, sizes.value, boundCount.value, bounds.value), bounds.rest))
  }

  lemma ShapeSound(s: seq<byte>)
    ensures ParseShape(s).Some? ==> s == ShapeBytes(ParseShape(s).value.value) + ParseShape(s).value.rest
  {
    hide IntBytes, AllIntBytes, ParseInt, ParseInts, FitsWidth;
    if ParseShape(s).Some? {
      var rank := ParseInt(s).value;
      var sizeCount := ParseCount(rank.rest).value;
      var sizes := ParseInts(sizeCount.rest, sizeCount.value.value).value;
      var boundCount := ParseCount(sizes.rest).value;
      IntSound(s);
      IntSound(rank.rest);
      IntsSound(sizeCount.rest, sizeCount.value.value);
      IntSound(sizes.rest);
      IntsSound(boundCount.rest, boundCount.value.value);
    }
  }

  lemma ShapeComplete(a: Shape, rest: seq<byte>)
    requires ShapeWellFormed(a)
    ensures ParseShape(ShapeBytes(a) + rest) == Some(Parsed(a, rest))
  {
    hide IntBytes, AllIntBytes, ParseInt, ParseInts, FitsWidth;
    var s5 := AllIntBytes(a.bounds) + rest;
    var s4 := IntBytes(a.boundCount) + s5;
    var s3 := AllIntBytes(a.sizes) + s4;
    var s2 := IntBytes(a.sizeCount) + s3;
    assert ShapeBytes(a) + rest == IntBytes(a.rank) + s2;
    IntComplete(a.rank, s2);
    IntComplete(a.sizeCount, s3);
    IntsComplete(a.sizes, s4);
    IntComplete(a.boundCount, s5);
    IntsComplete(a.bounds, rest);
  }

  // ----- Types and methods -----

  function ParseType(s: seq<byte>, depth: nat): (r: Option<Parsed<Syntax>>)
    ensures r.Some? ==> |r.value.rest| < |s|
    decreases |s|, 0
  {
    if depth > DEPTH_LIMIT || s == [] then None
    else
      var code := s[0];
      var s1 := s[1..];
      match KindOf(code)
      case Simple => Some(Parsed(SimpleType(code), s1))
      case Unary =>
        var element :- ParseType(s1, depth + 1);
        Some(Parsed(UnaryType(code, element.value), element.rest))
      case Class =>
        var token :- ParseToken(s1);
        Some(Parsed(ClassType(code, token.value), token.rest))
      case Variable =>
        var number :- ParseInt(s1);
        Some(Parsed(VariableType(code, number.value), number.rest))
      case ArrayKind =>
        var element :- ParseType(s1, depth + 1);
        var shape :- ParseShape(element.rest);
        Some(Parsed(ArrayType(element.value, shape.value), shape.rest))
      case Instance => ParseInstance(s1, depth)
      case FunctionPointer =>
        var m :- ParseMethod(s1, depth + 1);
        Some(Parsed(FunctionType(m.value), m.rest))
      case Modifier =>
        var token :- ParseToken(s1);
        var element :- ParseType(token.rest, depth + 1);
        Some(Parsed(ModifiedType(code, token.value, element.value), element.rest))
      case Unknown => None
  }

  /** What follows the code of a generic instance. */
  function ParseInstance(s: seq<byte>, depth: nat): (r: Option<Parsed<Syntax>>)
    ensures r.Some? ==> |r.value.rest| < |s|
    decreases |s|, 2
  {
    if s == [] || KindOf(s[0]) != Class then None
    else
      var token :- ParseToken(s[1..]);
      var count :- ParseCount(token.rest);
      var arguments :- ParseTypes(count.rest, depth + 1, count.value.value);
      Some(Parsed(InstanceType(s[0], token.value, count.value, arguments.value), arguments.rest))
  }

  function ParseTypes(s: seq<byte>, depth: nat, n: nat): (r: Option<Parsed<seq<Syntax>>>)
    ensures r.Some? ==> |r.value.value| == n && |r.value.rest| <= |s|
    decreases |s|, 1, n
  {
    if n == 0 then Some(Parsed([], s))
    else
      var first :- ParseType(s, depth);
      var others :- ParseTypes(first.rest, depth, n - 1);
      Some(Parsed([first.value] + others.value, others.rest))
  }

  function ParseGenerics(s: seq<byte>, flags: byte): (r: Option<Parsed<Option<Compressed>>>)
    ensures r.Some? ==> |r.value.rest| <= |s|
  {
    if !IsGeneric(flags) then Some(Parsed(None, s))
    else
      var n :- ParseInt(s);
      if n.value.value > 65535 then None else Some(Parsed(Some(n.value), n.rest))
  }

  function ParseMethod(s: seq<byte>, depth: nat): (r: Option<Parsed<MethodSyntax>>)
    ensures r.Some? ==> |r.value.rest| < |s|
    decreases |s|, 2
  {
    if depth > DEPTH_LIMIT || s == [] || !IsConvention(s[0]) then None
    else
      var generics :- ParseGenerics(s[1..], s[0]);
      var count :- ParseCount(generics.rest);
      var returnType :- ParseType(count.rest, depth + 1);
      var params :- ParseParams(returnType.rest, depth + 1, count.value.value, IsVararg(s[0]));
      Some(Parsed(MethodSyntax(s[0], generics.value, count.value, returnType.value, params.value.0, params.value.1), params.rest))
  }

  /** Parameters with at most one sentinel among them, if any is allowed at all. */
  function ParseParams(s: seq<byte>, depth: nat, n: nat, sentinelAllowed: bool): (r: Option<Parsed<(seq<Syntax>, Option<nat>)>>)
    ensures r.Some? ==> |r.value.value.0| == n && |r.value.rest| <= |s|
    decreases |s|, 1, n
  {
    if n == 0 then Some(Parsed(([], None), s))
    else
      var here := s != [] && s[0] == SENTINEL;
      if here && !sentinelAllowed then None else
      var first :- ParseType(if here then s[1..] else s, depth);
      var others :- ParseParams(first.rest, depth, n - 1, sentinelAllowed && !here);
      Some(Parsed(([first.value] + others.value.0, Found(here, others.value.1)), others.rest))
  }

  function Found(here: bool, later: Option<nat>): Option<nat> {
    if here then Some(0) else if later.Some? then Some(later.value + 1) else None
  }

  // ----- Soundness: whatever is accepted is well formed and written like that -----

  lemma {:induction false} TypeSound(s: seq<byte>, depth: nat)
    requires ParseType(s, depth).Some?
    ensures var p := ParseType(s, depth).value; WellFormed(p.value, depth) && s == Bytes(p.value, depth) + p.rest
    decreases |s|, 0
  {
    hide ParseInt, IntBytes, ParseShape, ShapeBytes, ShapeWellFormed, ParseInstance, ParseTypes, ParseMethod, ParseParams, FitsWidth, MethodBytes, AllBytes;
    var code, s1, p := s[0], s[1..], ParseType(s, depth).value;
    assert s == [code] + s1;
    match KindOf(code)
    case Simple =>
    case Unary => TypeSound(s1, depth + 1);
    case Class => IntSound(s1);
    case Variable => IntSound(s1);
    case ArrayKind =>
      var element := ParseType(s1, depth + 1).value;
      TypeSound(s1, depth + 1);
      ShapeSound(element.rest);
    case Instance => InstanceSound(s1, depth);
    case FunctionPointer => MethodSound(s1, depth + 1);
    case Modifier =>
      IntSound(s1);
      TypeSound(ParseToken(s1).value.rest, depth + 1);
  }

  lemma {:induction false} InstanceSound(s: seq<byte>, depth: nat)
    requires ParseInstance(s, depth).Some? && depth <= DEPTH_LIMIT
    ensures var p := ParseInstance(s, depth).value;
            WellFormed(p.value, depth) && p.value.InstanceType? && [0x15] + s == Bytes(p.value, depth) + p.rest
    decreases |s|, 2
  {
    hide ParseInt, IntBytes, ParseType, ParseTypes, AllBytes, AllWellFormed, FitsWidth;
    var token := ParseToken(s[1..]).value;
    var count := ParseCount(token.rest).value;
    var arguments := ParseTypes(count.rest, depth + 1, count.value.value).value;
    IntSound(s[1..]);
    IntSound(token.rest);
    TypesSound(count.rest, depth + 1, count.value.value);
    Parts(s, IntBytes(token.value), IntBytes(count.value), AllBytes(arguments.value, depth + 1), arguments.rest);
  }

  lemma Parts(s: seq<byte>, a: seq<byte>, b: seq<byte>, c: seq<byte>, rest: seq<byte>)
    requires s != [] && s[1..] == a + (b + (c + rest))
    ensures [0x15] + s == [0x15] + ([s[0]] + (a + (b + c))) + rest
  {
  }

  lemma {:induction false} TypesSound(s: seq<byte>, depth: nat, n: nat)
    requires ParseTypes(s, depth, n).Some?
    ensures var p := ParseTypes(s, depth, n).value; AllWellFormed(p.value, depth) && s == AllBytes(p.value, depth) + p.rest
    decreases |s|, 1, n
  {
    hide ParseType, Bytes, WellFormed;
    if n > 0 {
      var first := ParseType(s, depth).value;
      var others := ParseTypes(first.rest, depth, n - 1).value;
      TypeSound(s, depth);
      TypesSound(first.rest, depth, n - 1);
      assert ([first.value] + others.value)[1..] == others.value;
    }
  }

  lemma {:induction false} MethodSound(s: seq<byte>, depth: nat)
    requires ParseMethod(s, depth).Some?
    ensures var p := ParseMethod(s, depth).value; MethodWellFormed(p.value, depth) && s == MethodBytes(p.value, depth) + p.rest
    decreases |s|, 2
  {
    hide ParseType, Bytes, WellFormed, ParseParams, ParamsBytes, ParseInt, IntBytes, FitsWidth, ParseGenerics, GenericsBytes;
    var flags := s[0];
    var generics := ParseGenerics(s[1..], flags).value;
    var count := ParseCount(generics.rest).value;
    var returnType := ParseType(count.rest, depth + 1).value;
    GenericsSound(s[1..], flags);
    IntSound(generics.rest);
    TypeSound(count.rest, depth + 1);
    ParamsSound(returnType.rest, depth + 1, count.value.value, IsVararg(flags));
  }

  lemma GenericsSound(s: seq<byte>, flags: byte)
    requires ParseGenerics(s, flags).Some?
    ensures var p := ParseGenerics(s, flags).value;
            && (p.value.Some? <==> IsGeneric(flags))
            && (p.value.Some? ==> FitsWidth(p.value.value) && p.value.value.value <= 65535)
            && s == GenericsBytes(p.value) + p.rest
  {
    IntSound(s);
  }

  lemma {:induction false} ParamsSound(s: seq<byte>, depth: nat, n: nat, sentinelAllowed: bool)
    requires ParseParams(s, depth, n, sentinelAllowed).Some?
    ensures var p := ParseParams(s, depth, n, sentinelAllowed).value;
            && AllWellFormed(p.value.0, depth)
            && (p.value.1.Some? ==> sentinelAllowed && p.value.1.value < n)
            && s == ParamsBytes(p.value.0, depth, p.value.1) + p.rest
    decreases |s|, 1, n
  {
    hide ParseType, Bytes, WellFormed, ParamsBytes;
    if n == 0 {
      NoParams(depth, s);
    } else {
      var here := s != [] && s[0] == SENTINEL;
      var s1 := if here then s[1..] else s;
      var first := ParseType(s1, depth).value;
      var others := ParseParams(first.rest, depth, n - 1, sentinelAllowed && !here).value;
      TypeSound(s1, depth);
      ParamsSound(first.rest, depth, n - 1, sentinelAllowed && !here);
      ParamsCons(first.value, others.value.0, depth, here, others.value.1, others.rest);
      assert s == (if here then [SENTINEL] else []) + s1;
    }
  }

  lemma NoParams(depth: nat, rest: seq<byte>)
    ensures ParamsBytes([], depth, None) + rest == rest
  {
  }

  /** The bytes of a parameter list, taken apart behind its first parameter. */
  lemma ParamsCons(first: Syntax, others: seq<Syntax>, depth: nat, here: bool, later: Option<nat>, rest: seq<byte>)
    requires WellFormed(first, depth) && AllWellFormed(others, depth) && (here ==> later == None)
    ensures AllWellFormed([first] + others, depth)
    ensures ParamsBytes([first] + others, depth, Found(here, later)) + rest ==
            (if here then [SENTINEL] else []) + (Bytes(first, depth) + (ParamsBytes(others, depth, later) + rest))
  {
    hide Bytes, WellFormed;
    assert ([first] + others)[1..] == others;
    assert OneOff(Found(here, later)) == later;
  }

  // ----- Completeness: everything well formed is accepted, whatever follows it -----

  lemma {:induction false} TypeComplete(c: Syntax, depth: nat, rest: seq<byte>)
    requires WellFormed(c, depth)
    ensures ParseType(Bytes(c, depth) + rest, depth) == Some(Parsed(c, rest))
    decreases c, 1
  {
    hide ParseInt, IntBytes, ParseShape, ShapeBytes, ShapeWellFormed, ParseTypes, ParseParams, FitsWidth, MethodWellFormed, AllWellFormed;
    match c
    case SimpleType(code) => Front(code, [], rest);
    case UnaryType(code, element) =>
      Front(code, Bytes(element, depth + 1), rest);
      TypeComplete(element, depth + 1, rest);
    case ClassType(code, token) =>
      Front(code, IntBytes(token), rest);
      IntComplete(token, rest);
    case VariableType(code, number) =>
      Front(code, IntBytes(number), rest);
      IntComplete(number, rest);
    case ArrayType(_, _) => ArrayComplete(c, depth, rest);
    case InstanceType(code, token, count, arguments) =>
      var tail := [code] + (IntBytes(token) + (IntBytes(count) + AllBytes(arguments, depth + 1)));
      Front(0x15, tail, rest);
      InstanceComplete(c, depth, rest);
    case FunctionType(m) =>
      Front(0x1b, MethodBytes(m, depth + 1), rest);
      MethodComplete(m, depth + 1, rest);
    case ModifiedType(_, _, _) => ModifiedComplete(c, depth, rest);
  }

  lemma {:induction false} ArrayComplete(c: Syntax, depth: nat, rest: seq<byte>)
    requires WellFormed(c, depth) && c.ArrayType?
    ensures ParseType(Bytes(c, depth) + rest, depth) == Some(Parsed(c, rest))
    decreases c, 0
  {
    hide ParseInt, IntBytes, ParseShape, ShapeBytes, ShapeWellFormed, FitsWidth;
    var tail := Bytes(c.element, depth + 1);
    Front(0x14, tail + ShapeBytes(c.shape), rest);
    Assoc(tail, ShapeBytes(c.shape), rest);
    TypeComplete(c.element, depth + 1, ShapeBytes(c.shape) + rest);
    ShapeComplete(c.shape, rest);
  }

  lemma {:induction false} ModifiedComplete(c: Syntax, depth: nat, rest: seq<byte>)
    requires WellFormed(c, depth) && c.ModifiedType?
    ensures ParseType(Bytes(c, depth) + rest, depth) == Some(Parsed(c, rest))
    decreases c, 0
  {
    hide ParseInt, IntBytes, FitsWidth;
    var tail := Bytes(c.element, depth + 1);
    Front(c.code, IntBytes(c.token) + tail, rest);
    Assoc(IntBytes(c.token), tail, rest);
    IntComplete(c.token, tail + rest);
    TypeComplete(c.element, depth + 1, rest);
  }

  lemma Front(code: byte, tail: seq<byte>, rest: seq<byte>)
    ensures var s := ([code] + tail) + rest; s != [] && s[0] == code && s[1..] == tail + rest
  {
  }

  lemma {:induction false} InstanceComplete(c: Syntax, depth: nat, rest: seq<byte>)
    requires WellFormed(c, depth) && c.InstanceType?
    ensures ParseInstance([c.code] + (IntBytes(c.token) + (IntBytes(c.count) + AllBytes(c.arguments, depth + 1))) + rest, depth)
            == Some(Parsed(c, rest))
    decreases c, 0
  {
    hide ParseInt, IntBytes, ParseTypes, Bytes, FitsWidth;
    var s3 := AllBytes(c.arguments, depth + 1);
    Front(c.code, IntBytes(c.token) + (IntBytes(c.count) + s3), rest);
    Assoc(IntBytes(c.token), IntBytes(c.count) + s3, rest);
    Assoc(IntBytes(c.count), s3, rest);
    IntComplete(c.token, IntBytes(c.count) + (s3 + rest));
    IntComplete(c.count, s3 + rest);
    TypesComplete(c.arguments, depth + 1, rest);
  }

  lemma {:induction false} TypesComplete(cs: seq<Syntax>, depth: nat, rest: seq<byte>)
    requires AllWellFormed(cs, depth)
    ensures ParseTypes(AllBytes(cs, depth) + rest, depth, |cs|) == Some(Parsed(cs, rest))
    decreases cs
  {
    hide ParseType, Bytes, WellFormed;
    if cs == [] {
      assert AllBytes(cs, depth) + rest == rest;
    } else {
      Assoc(Bytes(cs[0], depth), AllBytes(cs[1..], depth), rest);
      TypeComplete(cs[0], depth, AllBytes(cs[1..], depth) + rest);
      TypesComplete(cs[1..], depth, rest);
      assert cs == [cs[0]] + cs[1..];
    }
  }

  lemma {:induction false} MethodComplete(m: MethodSyntax, depth: nat, rest: seq<byte>)
    requires MethodWellFormed(m, depth)
    ensures ParseMethod(MethodBytes(m, depth) + rest, depth) == Some(Parsed(m, rest))
    decreases m
  {
    hide ParseInt, IntBytes, ParseType, Bytes, WellFormed, ParseParams, ParamsBytes, FitsWidth, AllWellFormed, ParseGenerics, GenericsBytes;
    var g, n := GenericsBytes(m.generics), IntBytes(m.count);
    var t, ps := Bytes(m.returnType, depth + 1), ParamsBytes(m.params, depth + 1, m.sentinel);
    Front(m.flags, g + (n + (t + ps)), rest);
    Assoc(g, n + (t + ps), rest);
    Assoc(n, t + ps, rest);
    Assoc(t, ps, rest);
    GenericsComplete(m.generics, m.flags, n + (t + (ps + rest)));
    IntComplete(m.count, t + (ps + rest));
    TypeComplete(m.returnType, depth + 1, ps + rest);
    ParamsComplete(m.params, depth + 1, m.sentinel, IsVararg(m.flags), rest);
  }

  lemma GenericsComplete(generics: Option<Compressed>, flags: byte, rest: seq<byte>)
    requires generics.Some? <==> IsGeneric(flags)
    requires generics.Some? ==> FitsWidth(generics.value) && generics.value.value <= 65535
    ensures ParseGenerics(GenericsBytes(generics) + rest, flags) == Some(Parsed(generics, rest))
  {
    if generics.Some? { IntComplete(generics.value, rest); } else { assert [] + rest == rest; }
  }

  lemma {:induction false} ParamsComplete(ps: seq<Syntax>, depth: nat, sentinel: Option<nat>, sentinelAllowed: bool, rest: seq<byte>)
    requires AllWellFormed(ps, depth)
    requires sentinel.Some? ==> sentinelAllowed && sentinel.value < |ps|
    ensures ParseParams(ParamsBytes(ps, depth, sentinel) + rest, depth, |ps|, sentinelAllowed) == Some(Parsed((ps, sentinel), rest))
    decreases ps
  {
    hide ParseType, Bytes, WellFormed, ParamsBytes;
    if ps == [] {
      NoParams(depth, rest);
    } else {
      var here, later := sentinel == Some(0), OneOff(sentinel);
      var tail := ParamsBytes(ps[1..], depth, later) + rest;
      assert ps == [ps[0]] + ps[1..];
      ParamsCons(ps[0], ps[1..], depth, here, later, rest);
      var s := ParamsBytes(ps, depth, sentinel) + rest;
      var s1 := Bytes(ps[0], depth) + tail;
      assert if here then s[0] == SENTINEL && s[1..] == s1 else s == s1 && s[0] == Bytes(ps[0], depth)[0];
      TypeComplete(ps[0], depth, tail);
      ParamsComplete(ps[1..], depth, later, sentinelAllowed && !here, rest);
    }
  }
}
