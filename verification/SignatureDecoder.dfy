/**
 The cursor-driven decoder of `src/signature.rs`. Every method advances `position` over
 exactly what the grammar reads and returns its meaning, or fails where the grammar does.
 */
module SignatureDecoder {
  import opened Common
  import opened SignatureSyntax
  import opened SignatureGrammar

  // ----- The grammar's results as decoded trees -----

  function DecodeType(s: seq<byte>, depth: nat): Option<Parsed<TypeSignature>> {
    var p :- ParseType(s, depth);
    TypeSound(s, depth);
    Some(Parsed(Meaning(p.value, depth), p.rest))
  }

  function DecodeTypes(s: seq<byte>, depth: nat, n: nat): Option<Parsed<seq<TypeSignature>>> {
    var p :- ParseTypes(s, depth, n);
    TypesSound(s, depth, n);
    Some(Parsed(Meanings(p.value, depth), p.rest))
  }

  function DecodeMethod(s: seq<byte>, depth: nat): Option<Parsed<SignatureMethod>> {
    var p :- ParseMethod(s, depth);
    MethodSound(s, depth);
    Some(Parsed(MethodMeaning(p.value, depth), p.rest))
  }

  datatype Params = Params(types: seq<TypeSignature>, sentinel: Option<nat>)

  function DecodeParams(s: seq<byte>, depth: nat, n: nat, sentinelAllowed: bool): Option<Parsed<Params>> {
    var p :- ParseParams(s, depth, n, sentinelAllowed);
    ParamsSound(s, depth, n, sentinelAllowed);
    Some(Parsed(Params(Meanings(p.value.0, depth), p.value.1), p.rest))
  }

  // ----- What these say one step at a time -----

  lemma TypesStep(s: seq<byte>, depth: nat, n: nat)
    ensures n == 0 ==> DecodeTypes(s, depth, n) == Some(Parsed([], s))
    ensures n > 0 ==>
              var first := DecodeType(s, depth);
              if first.None? then DecodeTypes(s, depth, n) == None
              else
                var others := DecodeTypes(first.value.rest, depth, n - 1);
                DecodeTypes(s, depth, n) ==
                if others.None? then None else Some(Parsed([first.value.value] + others.value.value, others.value.rest))
  {
    hide ParseType, Meaning, WellFormed, Bytes;
    var p := ParseTypes(s, depth, n);
    if n > 0 && p.Some? {
      var first := ParseType(s, depth).value;
      assert p.value.value == [first.value] + ParseTypes(first.rest, depth, n - 1).value.value;
      assert p.value.value[1..] == ParseTypes(first.rest, depth, n - 1).value.value;
    }
  }

  lemma ParamsStep(s: seq<byte>, depth: nat, n: nat, sentinelAllowed: bool)
    ensures n == 0 ==> DecodeParams(s, depth, n, sentinelAllowed) == Some(Parsed(Params([], None), s))
    ensures n > 0 ==>
              var here := s != [] && s[0] == SENTINEL;
              var first := if here && !sentinelAllowed then None else DecodeType(if here then s[1..] else s, depth);
              if first.None? then DecodeParams(s, depth, n, sentinelAllowed) == None
              else
                var others := DecodeParams(first.value.rest, depth, n - 1, sentinelAllowed && !here);
                DecodeParams(s, depth, n, sentinelAllowed) ==
                if others.None? then None
                else Some(Parsed(Params([first.value.value] + others.value.value.types, Found(here, others.value.value.sentinel)),
                                 others.value.rest))
  {
    hide ParseType, Meaning, WellFormed, Bytes, Found;
    var p := ParseParams(s, depth, n, sentinelAllowed);
    if n > 0 && p.Some? {
      var here := s != [] && s[0] == SENTINEL;
      var first := ParseType(if here then s[1..] else s, depth).value;
      var others := ParseParams(first.rest, depth, n - 1, sentinelAllowed && !here).value;
      assert p.value.value.0 == [first.value] + others.value.0;
      assert p.value.value.0[1..] == others.value.0;
    }
  }

  /** The simple, nested and tokened cases of a type. */
  lemma TypeStep(s: seq<byte>, depth: nat)
    ensures depth > DEPTH_LIMIT || s == [] || KindOf(s[0]) == Unknown ==> DecodeType(s, depth) == None
    ensures depth <= DEPTH_LIMIT && s != [] ==>
              var code, s1 := s[0], s[1..];
              match KindOf(code)
              case Simple => DecodeType(s, depth) == Some(Parsed(Primitive(SimpleName(code)), s1))
              case Unary => DecodeType(s, depth) ==
                var e := DecodeType(s1, depth + 1);
                if e.None? then None else Some(Parsed(Wrap(code, e.value.value), e.value.rest))
              case Class => DecodeType(s, depth) ==
                var t := ParseToken(s1);
                if t.None? then None else Some(Parsed(Named(Token(t.value.value)), t.value.rest))
              case Variable => DecodeType(s, depth) ==
                var n := ParseInt(s1);
                if n.None? then None else Some(Parsed(Number(code, n.value.value.value), n.value.rest))
              case Modifier => DecodeType(s, depth) == (
                var t := ParseToken(s1);
                if t.None? then None else
                var e := DecodeType(t.value.rest, depth + 1);
                if e.None? then None
                else Some(Parsed(Modified(code == 0x1f, Token(t.value.value), e.value.value), e.value.rest)))
              case FunctionPointer => DecodeType(s, depth) ==
                var m := DecodeMethod(s1, depth + 1);
                if m.None? then None else Some(Parsed(Function(m.value.value), m.value.rest))
              case _ => true
  {
    hide ParseInt, ParseShape, ParseInstance, ParseMethod, Bytes, KindOf, Token, MethodMeaning, SimpleName;
  }

  function Wrap(code: byte, e: TypeSignature): TypeSignature {
    if code == 0x0f then Pointer(e) else if code == 0x10 then ByRef(e) else if code == 0x1d then Vector(e) else Pinned(e)
  }

  function Number(code: byte, n: nat): TypeSignature {
    if code == 0x13 then GenericType(n) else GenericMethod(n)
  }

  lemma ArrayStep(s: seq<byte>, depth: nat)
    requires depth <= DEPTH_LIMIT && s != [] && KindOf(s[0]) == ArrayKind
    ensures var e := DecodeType(s[1..], depth + 1);
            if e.None? then DecodeType(s, depth) == None
            else
              var shape := ParseShape(e.value.rest);
              DecodeType(s, depth) ==
              if shape.None? then None
              else Some(Parsed(ArrayOf(e.value.value, shape.value.value), shape.value.rest))
  {
    hide ParseInt, ParseShape, Bytes, ShapeWellFormed;
  }

  function ArrayOf(e: TypeSignature, a: Shape): TypeSignature
    requires ShapeWellFormed(a)
  {
    Array(e, a.rank.value, Values(a.sizes), SignedValues(a.bounds))
  }

  lemma InstanceStep(s: seq<byte>, depth: nat)
    requires depth <= DEPTH_LIMIT && s != [] && KindOf(s[0]) == Instance
    ensures DecodeType(s, depth) == (
              if |s| < 2 || KindOf(s[1]) != Class then None else
              var token := ParseToken(s[2..]);
              if token.None? then None else
              var count := ParseCount(token.value.rest);
              if count.None? then None else
              var arguments := DecodeTypes(count.value.rest, depth + 1, count.value.value.value);
              if arguments.None? then None
              else Some(Parsed(Generic(Named(Token(token.value.value)), arguments.value.value), arguments.value.rest)))
  {
    hide ParseInt, Bytes, ParseTypes, Token, IsToken;
    var r := ParseInstance(s[1..], depth);
    assert ParseType(s, depth) == r;
    if |s| >= 2 {
      assert s[1..][0] == s[1] && s[1..][1..] == s[2..];
      if r.Some? { InstanceSound(s[1..], depth); }
    }
  }

  lemma MethodStep(s: seq<byte>, depth: nat)
    ensures DecodeMethod(s, depth) == (
              if depth > DEPTH_LIMIT || s == [] || !IsConvention(s[0]) then None else
              var generics := ParseGenerics(s[1..], s[0]);
              if generics.None? then None else
              var count := ParseCount(generics.value.rest);
              if count.None? then None else
              var returnType := DecodeType(count.value.rest, depth + 1);
              if returnType.None? then None else
              var params := DecodeParams(returnType.value.rest, depth + 1, count.value.value.value, IsVararg(s[0]));
              if params.None? then None
              else Some(Parsed(SignatureMethod(s[0], GenericCount(generics.value.value), returnType.value.value,
                                               params.value.value.types, params.value.value.sentinel), params.value.rest)))
  {
    hide ParseInt, ParseType, ParseParams, Bytes, WellFormed, Meaning, Meanings, AllWellFormed;
  }

  function GenericCount(generics: Option<Compressed>): nat {
    if generics.Some? then generics.value.value else 0
  }

  // ----- The decoder -----

  class Decoder {
    const bytes: seq<byte>
    var position: nat

    ghost predicate Valid()
      reads this
    {
      position <= |bytes|
    }

    /** The bytes that are still to be read. */
    ghost function Rest(): seq<byte>
      requires Valid()
      reads this
    {
      bytes[position..]
    }

    constructor (bytes: seq<byte>)
      ensures Valid() && this.bytes == bytes && Rest() == bytes
    {
      this.bytes, position := bytes, 0;
    }

    method Byte() returns (r: Option<byte>)
      requires Valid()
      modifies this
      ensures Valid() && position >= old(position)
      ensures old(Rest()) == [] ==> r == None
      ensures old(Rest()) != [] ==> r == Some(old(Rest())[0]) && Rest() == old(Rest())[1..]
    {
      if position >= |bytes| { return None; }
      r := Some(bytes[position]);
      position := position + 1;
    }

    method UnsignedWithWidth() returns (r: Option<Compressed>)
      requires Valid()
      modifies this
      ensures Valid() && position >= old(position)
      ensures ParseInt(old(Rest())).None? ==> r == None
      ensures ParseInt(old(Rest())).Some? ==> r == Some(ParseInt(old(Rest())).value.value) && Rest() == ParseInt(old(Rest())).value.rest
    {
      ghost var s := Rest();
      var b :- Byte();
      if b < 0x80 {
        return Some(Compressed(b, 7));
      } else if b < 0xc0 {
        var low :- Byte();
        return Some(Compressed(Big(0, 0, b - 0x80, low), 14));
      } else if b < 0xe0 {
        var c :- Byte();
        var d :- Byte();
        var e :- Byte();
        assert s[1..][1..][1..][1..] == s[4..];
        return Some(Compressed(Big(b - 0xc0, c, d, e), 29));
      }
      return None;
    }

    method Unsigned() returns (r: Option<nat>)
      requires Valid()
      modifies this
      ensures Valid() && position >= old(position)
      ensures ParseInt(old(Rest())).None? ==> r == None
      ensures ParseInt(old(Rest())).Some? ==> r == Some(ParseInt(old(Rest())).value.value.value) && Rest() == ParseInt(old(Rest())).value.rest
    {
      var n :- UnsignedWithWidth();
      return Some(n.value);
    }

    method TypeToken() returns (r: Option<nat>)
      requires Valid()
      modifies this
      ensures Valid() && position >= old(position)
      ensures ParseToken(old(Rest())).None? ==> r == None
      ensures ParseToken(old(Rest())).Some? ==> r == Some(Token(ParseToken(old(Rest())).value.value)) && Rest() == ParseToken(old(Rest())).value.rest
    {
      hide ParseInt;
      var coded :- Unsigned();
      var table := 0x1b;
      if coded % 4 == 0 { table := 0x02; }
      else if coded % 4 == 1 { table := 0x01; }
      else if coded % 4 == 3 { return None; }
      var row := coded / 4;
      if !(0 < row <= 0xff_ffff) { return None; }
      return Some(table * BITS24 + row);
    }

    method Count() returns (r: Option<nat>)
      requires Valid()
      modifies this
      ensures Valid() && position >= old(position)
      ensures ParseCount(old(Rest())).None? ==> r == None
      ensures ParseCount(old(Rest())).Some? ==> r == Some(ParseCount(old(Rest())).value.value.value) && Rest() == ParseCount(old(Rest())).value.rest
    {
      hide ParseInt;
      var n :- Unsigned();
      if n > |bytes| - position { return None; }
      return Some(n);
    }

    method Unsigneds(n: nat) returns (r: Option<seq<nat>>)
      requires Valid()
      modifies this
      ensures Valid() && position >= old(position)
      ensures ParseInts(old(Rest()), n).None? ==> r == None
      ensures ParseInts(old(Rest()), n).Some? ==> r == Some(Values(ParseInts(old(Rest()), n).value.value)) && Rest() == ParseInts(old(Rest()), n).value.rest
    {
      hide ParseInt;
      var values: seq<nat> := [];
      ghost var read: seq<Compressed> := [];
      BehindEnds([], Rest(), n);
      for i := 0 to n
        invariant Valid() && position >= old(position)
        invariant ParseInts(old(Rest()), n) == Behind(read, ParseInts(Rest(), n - i)) && values == Values(read)
      {
        ghost var s := Rest();
        BehindStep(read, s, n - i);
        var v :- Unsigned();
        read := read + [ParseInt(s).value.value];
        values := values + [v];
      }
      BehindEnds(read, Rest(), 0);
      return Some(values);
    }

    method Signeds(n: nat) returns (r: Option<seq<int>>)
      requires Valid()
      modifies this
      ensures Valid() && position >= old(position)
      ensures ParseInts(old(Rest()), n).None? ==> r == None
      ensures ParseInts(old(Rest()), n).Some? ==> r == Some(SignedValues(ParseInts(old(Rest()), n).value.value)) && Rest() == ParseInts(old(Rest()), n).value.rest
    {
      hide ParseInt;
      var values: seq<int> := [];
      ghost var read: seq<Compressed> := [];
      BehindEnds([], Rest(), n);
      for i := 0 to n
        invariant Valid() && position >= old(position) && forall c :: c in read ==> FitsWidth(c)
        invariant ParseInts(old(Rest()), n) == Behind(read, ParseInts(Rest(), n - i)) && values == SignedValues(read)
      {
        ghost var s := Rest();
        BehindStep(read, s, n - i);
        var v :- UnsignedWithWidth();
        read := read + [v];
        values := values + [Signed(v)];
      }
      BehindEnds(read, Rest(), 0);
      return Some(values);
    }

    /** The simple, nested and tokened types; arrays, instances and functions have their own methods. */
    method Ty(depth: nat) returns (r: Option<TypeSignature>)
      requires Valid()
      modifies this
      ensures Valid() && position >= old(position)
      ensures DecodeType(old(Rest()), depth).None? ==> r == None
      ensures DecodeType(old(Rest()), depth).Some? ==>
                && r == Some(DecodeType(old(Rest()), depth).value.value)
                && Rest() == DecodeType(old(Rest()), depth).value.rest && position > old(position)
      decreases |bytes| - position, 1
    {
      hide DecodeType, DecodeMethod, ParseInt, ParseToken, ParseShape, Meaning, SimpleName, FitsWidth, IsToken;
      ghost var s := Rest();
      TypeStep(s, depth);
      if depth > DEPTH_LIMIT { return None; }
      var code :- Byte();
      match KindOf(code)
      case Simple => return Some(Primitive(SimpleName(code)));
      case Unary =>
        var element :- Ty(depth + 1);
        return Some(Wrap(code, element));
      case Class =>
        var token :- TypeToken();
        return Some(Named(token));
      case Variable =>
        var number :- Unsigned();
        return Some(Number(code, number));
      case ArrayKind => r := ArrayTy(depth, s);
      case Instance => r := InstanceTy(depth, s);
      case FunctionPointer =>
        var m :- Method(depth + 1);
        return Some(Function(m));
      case Modifier =>
        var modifier :- TypeToken();
        var element :- Ty(depth + 1);
        return Some(Modified(code == 0x1f, modifier, element));
      case Unknown => return None;
    }

    /** An array behind its code: element, rank, sizes and lower bounds. */
    method ArrayTy(depth: nat, ghost s: seq<byte>) returns (r: Option<TypeSignature>)
      requires Valid() && depth <= DEPTH_LIMIT
      requires s != [] && KindOf(s[0]) == ArrayKind && s[1..] == Rest()
      modifies this
      ensures Valid() && position >= old(position)
      ensures DecodeType(s, depth).None? ==> r == None
      ensures DecodeType(s, depth).Some? ==> r == Some(DecodeType(s, depth).value.value) && Rest() == DecodeType(s, depth).value.rest
      decreases |bytes| - position, 2
    {
      hide DecodeType, ParseInt, ParseInts, ParseCount, Meaning, FitsWidth;
      ArrayStep(s, depth);
      var element :- Ty(depth + 1);
      var rank :- Unsigned();
      if !(0 < rank <= 32) { return None; }
      var count :- Count();
      if count > rank { return None; }
      var sizes :- Unsigneds(count);
      count :- Count();
      if count > rank { return None; }
      var lowerBounds :- Signeds(count);
      return Some(Array(element, rank, sizes, lowerBounds));
    }

    /** A generic instance behind its code. */
    method InstanceTy(depth: nat, ghost s: seq<byte>) returns (r: Option<TypeSignature>)
      requires Valid() && depth <= DEPTH_LIMIT
      requires s != [] && KindOf(s[0]) == Instance && s[1..] == Rest()
      modifies this
      ensures Valid() && position >= old(position)
      ensures DecodeType(s, depth).None? ==> r == None
      ensures DecodeType(s, depth).Some? ==> r == Some(DecodeType(s, depth).value.value) && Rest() == DecodeType(s, depth).value.rest
      decreases |bytes| - position, 2
    {
      hide DecodeType, DecodeTypes, ParseToken, ParseCount, Meaning, Meanings, FitsWidth, IsToken;
      InstanceStep(s, depth);
      var code :- Byte();
      if code != 0x11 && code != 0x12 { return None; }
      assert s[1..][1..] == s[2..];
      var token :- TypeToken();
      var count :- Count();
      var arguments :- Types(depth + 1, count);
      return Some(Generic(Named(token), arguments));
    }

    /** Several types in a row. */
    method Types(depth: nat, n: nat) returns (r: Option<seq<TypeSignature>>)
      requires Valid()
      modifies this
      ensures Valid() && position >= old(position)
      ensures DecodeTypes(old(Rest()), depth, n).None? ==> r == None
      ensures DecodeTypes(old(Rest()), depth, n).Some? ==>
                r == Some(DecodeTypes(old(Rest()), depth, n).value.value) && Rest() == DecodeTypes(old(Rest()), depth, n).value.rest
      decreases |bytes| - position, 2
    {
      hide DecodeType, DecodeTypes;
      var types: seq<TypeSignature> := [];
      After([], DecodeTypes(Rest(), depth, n));
      for i := 0 to n
        invariant Valid() && position >= old(position)
        invariant DecodeTypes(old(Rest()), depth, n) == Afterwards(types, DecodeTypes(Rest(), depth, n - i))
      {
        ghost var s := Rest();
        AfterStep(types, s, depth, n - i);
        var ty :- Ty(depth);
        types := types + [ty];
      }
      TypesStep(Rest(), depth, 0);
      After(types, DecodeTypes(Rest(), depth, 0));
      return Some(types);
    }

    method Method(depth: nat) returns (r: Option<SignatureMethod>)
      requires Valid()
      modifies this
      ensures Valid() && position >= old(position)
      ensures DecodeMethod(old(Rest()), depth).None? ==> r == None
      ensures DecodeMethod(old(Rest()), depth).Some? ==>
                r == Some(DecodeMethod(old(Rest()), depth).value.value) && Rest() == DecodeMethod(old(Rest()), depth).value.rest
      decreases |bytes| - position, 2
    {
      hide DecodeType, DecodeMethod, DecodeParams, ParseInt, ParseCount, FitsWidth, Meaning, Meanings;
      MethodStep(Rest(), depth);
      if depth > DEPTH_LIMIT { return None; }
      var flags :- Byte();
      if !IsConvention(flags) { return None; }
      var generic := 0;
      if IsGeneric(flags) { generic :- Unsigned(); }
      if generic > 65535 { return None; }
      var count :- Count();
      var returnType :- Ty(depth + 1);
      var params :- Parameters(depth + 1, count, IsVararg(flags));
      return Some(SignatureMethod(flags, generic, returnType, params.types, params.sentinel));
    }

    /** The parameters of a method, one of which may stand behind the vararg sentinel. */
    method Parameters(depth: nat, count: nat, vararg: bool) returns (r: Option<Params>)
      requires Valid()
      modifies this
      ensures Valid() && position >= old(position)
      ensures DecodeParams(old(Rest()), depth, count, vararg).None? ==> r == None
      ensures DecodeParams(old(Rest()), depth, count, vararg).Some? ==>
                && r == Some(DecodeParams(old(Rest()), depth, count, vararg).value.value)
                && Rest() == DecodeParams(old(Rest()), depth, count, vararg).value.rest
      decreases |bytes| - position, 2
    {
      hide DecodeType, DecodeParams;
      var params: seq<TypeSignature> := [];
      var sentinel: Option<nat> := None;
      NoneBefore(DecodeParams(Rest(), depth, count, vararg));
      for i := 0 to count
        invariant Valid() && position >= old(position) && |params| == i
        invariant DecodeParams(old(Rest()), depth, count, vararg) ==
                  Before(params, sentinel, DecodeParams(Rest(), depth, count - i, vararg && sentinel.None?))
      {
        ghost var s := Rest();
        BeforeStep(params, sentinel, s, depth, count - i, vararg && sentinel.None?);
        if position < |bytes| && bytes[position] == SENTINEL {
          if !vararg { return None; }
          if sentinel.Some? { return None; }
          position := position + 1;
          sentinel := Some(|params|);
        }
        var ty :- Ty(depth);
        params := params + [ty];
      }
      ParamsStep(Rest(), depth, 0, vararg && sentinel.None?);
      BeforeNone(params, sentinel, Rest());
      return Some(Params(params, sentinel));
    }

    method Finish() returns (done: bool)
      requires Valid()
      ensures done <==> Rest() == []
    {
      return position == |bytes|;
    }
  }

  function Afterwards(types: seq<TypeSignature>, r: Option<Parsed<seq<TypeSignature>>>): Option<Parsed<seq<TypeSignature>>> {
    if r.None? then None else Some(Parsed(types + r.value.value, r.value.rest))
  }

  lemma After(types: seq<TypeSignature>, r: Option<Parsed<seq<TypeSignature>>>)
    ensures Afterwards([], r) == r
    ensures r.Some? && r.value.value == [] ==> Afterwards(types, r) == Some(Parsed(types, r.value.rest))
  {
    if r.Some? { assert [] + r.value.value == r.value.value; }
    assert types + [] == types;
  }

  lemma AfterStep(types: seq<TypeSignature>, s: seq<byte>, depth: nat, n: nat)
    requires n > 0
    ensures var first := DecodeType(s, depth);
            Afterwards(types, DecodeTypes(s, depth, n)) ==
            if first.None? then None
            else Afterwards(types + [first.value.value], DecodeTypes(first.value.rest, depth, n - 1))
  {
    hide DecodeType, DecodeTypes;
    TypesStep(s, depth, n);
    var first := DecodeType(s, depth);
    if first.Some? {
      var others := DecodeTypes(first.value.rest, depth, n - 1);
      if others.Some? { assert types + ([first.value.value] + others.value.value) == types + [first.value.value] + others.value.value; }
    }
  }

  /** Parameters read so far in front of those still to come; the sentinel counts from the start. */
  function Before(params: seq<TypeSignature>, sentinel: Option<nat>, r: Option<Parsed<Params>>): Option<Parsed<Params>> {
    if r.None? then None
    else
      var later := r.value.value;
      Some(Parsed(Params(params + later.types,
                         if sentinel.Some? then sentinel
                         else if later.sentinel.Some? then Some(|params| + later.sentinel.value) else None), r.value.rest))
  }

  lemma NoneBefore(r: Option<Parsed<Params>>)
    ensures Before([], None, r) == r
  {
    if r.Some? { assert [] + r.value.value.types == r.value.value.types; }
  }

  lemma BeforeNone(params: seq<TypeSignature>, sentinel: Option<nat>, rest: seq<byte>)
    ensures Before(params, sentinel, Some(Parsed(Params([], None), rest))) == Some(Parsed(Params(params, sentinel), rest))
  {
    assert params + [] == params;
  }

  lemma BeforeStep(params: seq<TypeSignature>, sentinel: Option<nat>, s: seq<byte>, depth: nat, n: nat, sentinelAllowed: bool)
    requires n > 0 && (sentinel.Some? ==> !sentinelAllowed)
    ensures var here := s != [] && s[0] == SENTINEL;
            var first := if here && !sentinelAllowed then None else DecodeType(if here then s[1..] else s, depth);
            Before(params, sentinel, DecodeParams(s, depth, n, sentinelAllowed)) ==
            if first.None? then None
            else Before(params + [first.value.value], if here then Some(|params|) else sentinel,
                        DecodeParams(first.value.rest, depth, n - 1, sentinelAllowed && !here))
  {
    hide DecodeType, DecodeParams;
    ParamsStep(s, depth, n, sentinelAllowed);
    var here := s != [] && s[0] == SENTINEL;
    var first := if here && !sentinelAllowed then None else DecodeType(if here then s[1..] else s, depth);
    if first.Some? {
      var others := DecodeParams(first.value.rest, depth, n - 1, sentinelAllowed && !here);
      if others.Some? {
        var types := others.value.value.types;
        assert params + ([first.value.value] + types) == params + [first.value.value] + types;
        if !sentinelAllowed || here { NoSentinel(first.value.rest, depth, n - 1); }
      }
    }
  }

  lemma NoSentinel(s: seq<byte>, depth: nat, n: nat)
    ensures DecodeParams(s, depth, n, false).Some? ==> DecodeParams(s, depth, n, false).value.value.sentinel == None
  {
    if ParseParams(s, depth, n, false).Some? { ParamsSound(s, depth, n, false); }
  }

  /** A result with what was read before it put in front. */
  function Behind(read: seq<Compressed>, r: Option<Parsed<seq<Compressed>>>): Option<Parsed<seq<Compressed>>> {
    if r.None? then None else Some(Parsed(read + r.value.value, r.value.rest))
  }

  lemma BehindEnds(read: seq<Compressed>, s: seq<byte>, n: nat)
    ensures Behind([], ParseInts(s, n)) == ParseInts(s, n)
    ensures Behind(read, ParseInts(s, 0)) == Some(Parsed(read, s))
  {
    var r := ParseInts(s, n);
    if r.Some? { assert [] + r.value.value == r.value.value; }
    assert read + [] == read;
  }

  lemma BehindStep(read: seq<Compressed>, s: seq<byte>, n: nat)
    requires n > 0
    ensures Behind(read, ParseInts(s, n)) ==
            if ParseInt(s).None? then None
            else Behind(read + [ParseInt(s).value.value], ParseInts(ParseInt(s).value.rest, n - 1))
  {
    hide ParseInt;
    if ParseInt(s).Some? {
      var first, others := ParseInt(s).value, ParseInts(ParseInt(s).value.rest, n - 1);
      if others.Some? { assert read + ([first.value] + others.value.value) == read + [first.value] + others.value.value; }
    }
  }
}
