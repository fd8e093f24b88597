/**
 The byte codes of ECMA-335 Partition II, sections 23.1.16 and 23.2, one by one: what the entry
 points of `src/signature.rs` make of literal bytes.
 */
module SignatureTable {
  import opened Common
  import opened SignatureSyntax
  import opened SignatureGrammar
  import opened SignatureDecoder
  import opened SignatureEntry

  /** A type that fills its bytes, at a nesting depth; a type spec is one at depth 0. */
  function TypeAt(s: seq<byte>, depth: nat): Option<TypeSignature> {
    Whole(DecodeType(s, depth))
  }

  lemma Cons(code: byte, s: seq<byte>)
    ensures ([code] + s)[0] == code && ([code] + s)[1..] == s
  {
  }

  // ----- Element types (II.23.1.16) -----

  lemma OneByte(code: byte)
    requires KindOf(code) == Simple
    ensures TypeSpecSignature([code]) == Some(Primitive(SimpleName(code)))
  {
    hide DecodeType, SimpleName, KindOf;
    assert [code][1..] == [];
    TypeStep([code], 0);
  }

  /** Every primitive has its code. */
  lemma PrimitiveCodes()
    ensures TypeSpecSignature([0x01]) == Some(Primitive("void"))
    ensures TypeSpecSignature([0x02]) == Some(Primitive("bool"))
    ensures TypeSpecSignature([0x03]) == Some(Primitive("char"))
    ensures TypeSpecSignature([0x04]) == Some(Primitive("sbyte"))
    ensures TypeSpecSignature([0x05]) == Some(Primitive("byte"))
    ensures TypeSpecSignature([0x06]) == Some(Primitive("short"))
    ensures TypeSpecSignature([0x07]) == Some(Primitive("ushort"))
    ensures TypeSpecSignature([0x08]) == Some(Primitive("int"))
    ensures TypeSpecSignature([0x09]) == Some(Primitive("uint"))
    ensures TypeSpecSignature([0x0a]) == Some(Primitive("long"))
    ensures TypeSpecSignature([0x0b]) == Some(Primitive("ulong"))
    ensures TypeSpecSignature([0x0c]) == Some(Primitive("float"))
    ensures TypeSpecSignature([0x0d]) == Some(Primitive("double"))
    ensures TypeSpecSignature([0x0e]) == Some(Primitive("string"))
    ensures TypeSpecSignature([0x16]) == Some(Primitive("System.TypedReference"))
    ensures TypeSpecSignature([0x18]) == Some(Primitive("nint"))
    ensures TypeSpecSignature([0x19]) == Some(Primitive("nuint"))
    ensures TypeSpecSignature([0x1c]) == Some(Primitive("object"))
  {
    hide TypeSpecSignature;
    OneByte(0x01); OneByte(0x02); OneByte(0x03); OneByte(0x04); OneByte(0x05); OneByte(0x06);
    OneByte(0x07); OneByte(0x08); OneByte(0x09); OneByte(0x0a); OneByte(0x0b); OneByte(0x0c);
    OneByte(0x0d); OneByte(0x0e); OneByte(0x16); OneByte(0x18); OneByte(0x19); OneByte(0x1c);
  }

  /** No other byte begins a type. */
  lemma NoOtherCodes(code: byte, s: seq<byte>)
    requires code == 0x00 || code == 0x17 || code == 0x1a || (0x21 <= code && code != 0x45)
    ensures TypeSpecSignature([code] + s) == None
  {
    hide DecodeType;
    TypeStep([code] + s, 0);
  }

  /** The four codes in front of one more type, and nothing else, make these four of it. */
  lemma WrapperCodes(s: seq<byte>, depth: nat)
    requires depth <= 64
    ensures var e := TypeAt(s, depth + 1);
            && TypeAt([0x0f] + s, depth) == (if e.None? then None else Some(Pointer(e.value)))
            && TypeAt([0x10] + s, depth) == (if e.None? then None else Some(ByRef(e.value)))
            && TypeAt([0x1d] + s, depth) == (if e.None? then None else Some(Vector(e.value)))
            && TypeAt([0x45] + s, depth) == (if e.None? then None else Some(Pinned(e.value)))
  {
    hide DecodeType;
    Cons(0x0f, s); Cons(0x10, s); Cons(0x1d, s); Cons(0x45, s);
    TypeStep([0x0f] + s, depth);
    TypeStep([0x10] + s, depth);
    TypeStep([0x1d] + s, depth);
    TypeStep([0x45] + s, depth);
  }

  // ----- Integers and tokens (II.23.2) -----

  lemma NumberAt(code: byte, s: seq<byte>)
    requires code == 0x13 || code == 0x1e
    ensures var n, r := ParseInt(s), TypeSpecSignature([code] + s);
            if n.None? || n.value.rest != [] then r == None
            else r == Some(if code == 0x13 then GenericType(n.value.value.value) else GenericMethod(n.value.value.value))
  {
    hide DecodeType, ParseInt;
    Cons(code, s);
    TypeStep([code] + s, 0);
  }

  /** One, two and four byte integers, most significant byte first, as numbers of generic parameters. */
  lemma NumberCodes(x: byte, y: byte, z: byte, w: byte)
    ensures x < 0x80 ==>
              && TypeSpecSignature([0x13] + [x]) == Some(GenericType(x))
              && TypeSpecSignature([0x1e] + [x]) == Some(GenericMethod(x))
    ensures 0x80 <= x < 0xc0 ==>
              && TypeSpecSignature([0x13] + [x, y]) == Some(GenericType((x - 0x80) * 0x100 + y))
              && TypeSpecSignature([0x1e] + [x, y]) == Some(GenericMethod((x - 0x80) * 0x100 + y))
    ensures 0xc0 <= x < 0xe0 ==>
              var n := (x - 0xc0) * 0x100_0000 + y * 0x1_0000 + z * 0x100 + w;
              && TypeSpecSignature([0x13] + [x, y, z, w]) == Some(GenericType(n))
              && TypeSpecSignature([0x1e] + [x, y, z, w]) == Some(GenericMethod(n))
    ensures 0xe0 <= x ==> TypeSpecSignature([0x13] + [x, y, z, w]) == None
  {
    hide TypeSpecSignature;
    NumberAt(0x13, [x]); NumberAt(0x1e, [x]);
    NumberAt(0x13, [x, y]); NumberAt(0x1e, [x, y]);
    NumberAt(0x13, [x, y, z, w]); NumberAt(0x1e, [x, y, z, w]);
  }

  lemma TokenAt(code: byte, n: Compressed)
    requires (code == 0x11 || code == 0x12) && FitsWidth(n)
    ensures TypeSpecSignature([code] + IntBytes(n)) == if IsToken(n) then Some(Named(Token(n))) else None
  {
    hide DecodeType, ParseInt, IntBytes, Token;
    Cons(code, IntBytes(n));
    assert IntBytes(n) + [] == IntBytes(n);
    IntComplete(n, []);
    TypeStep([code] + IntBytes(n), 0);
  }

  /** The two low bits name the table, the others the row: type definitions, references and specs. */
  lemma TokenCodes(code: byte, row: nat, table: nat, width: nat)
    requires (code == 0x11 || code == 0x12) && table < 4 && FitsWidth(Compressed(4 * row + table, width))
    ensures TypeSpecSignature([code] + IntBytes(Compressed(4 * row + table, width))) ==
            if row == 0 || row > 0xff_ffff || table == 3 then None
            else if table == 0 then Some(Named(0x0200_0000 + row))
            else if table == 1 then Some(Named(0x0100_0000 + row))
            else Some(Named(0x1b00_0000 + row))
  {
    hide TypeSpecSignature, IntBytes;
    assert (4 * row + table) / 4 == row && (4 * row + table) % 4 == table;
    TokenAt(code, Compressed(4 * row + table, width));
  }

  /** The examples of signed integers in II.23.2. */
  lemma SignedExamples()
    ensures Signed(Compressed(0x06, 7)) == 3 && Signed(Compressed(0x7b, 7)) == -3
    ensures Signed(Compressed(0x0080, 14)) == 64 && Signed(Compressed(0x01, 7)) == -64
    ensures Signed(Compressed(0x4000, 29)) == 8192 && Signed(Compressed(0x0001, 14)) == -8192
    ensures Signed(Compressed(0x1fff_fffe, 29)) == 268435455 && Signed(Compressed(0x0000_0001, 29)) == -268435456
  {
  }

  // ----- Types in a row -----

  function Flat(pieces: seq<seq<byte>>): seq<byte> {
    if pieces == [] then [] else pieces[0] + Flat(pieces[1..])
  }

  /** Each piece is one whole type. */
  ghost predicate AllAt(pieces: seq<seq<byte>>, types: seq<TypeSignature>, depth: nat) {
    |pieces| == |types| && forall i :: 0 <= i < |pieces| ==> TypeAt(pieces[i], depth) == Some(types[i])
  }

  lemma WholeIsFirst(piece: seq<byte>, t: TypeSignature, depth: nat, rest: seq<byte>)
    requires TypeAt(piece, depth) == Some(t)
    ensures DecodeType(piece + rest, depth) == Some(Parsed(t, rest)) && piece != []
  {
    hide DecodeType;
    TypeIsStable(piece, depth, rest);
    assert [] + rest == rest;
    TypeStep(piece, depth);
  }

  lemma {:induction false} FlatTypes(pieces: seq<seq<byte>>, types: seq<TypeSignature>, depth: nat, rest: seq<byte>)
    requires AllAt(pieces, types, depth)
    ensures DecodeTypes(Flat(pieces) + rest, depth, |pieces|) == Some(Parsed(types, rest))
    ensures |Flat(pieces)| >= |pieces|
  {
    hide DecodeType, DecodeTypes, TypeAt;
    TypesStep(Flat(pieces) + rest, depth, |pieces|);
    if pieces == [] {
      assert Flat(pieces) + rest == rest;
    } else {
      Assoc(pieces[0], Flat(pieces[1..]), rest);
      WholeIsFirst(pieces[0], types[0], depth, Flat(pieces[1..]) + rest);
      FlatTypes(pieces[1..], types[1..], depth, rest);
      assert types == [types[0]] + types[1..];
    }
  }

  lemma SmallCount(n: nat, rest: seq<byte>)
    requires n < 0x80
    ensures ParseInt([n] + rest) == Some(Parsed(Compressed(n, 7), rest))
    ensures n <= |rest| ==> ParseCount([n] + rest) == Some(Parsed(Compressed(n, 7), rest))
  {
    Cons(n, rest);
  }

  /** A generic instance: class or value type, its token, the number of arguments, the arguments. */
  lemma InstanceCode(kind: byte, token: Compressed, t: nat, pieces: seq<seq<byte>>, types: seq<TypeSignature>, depth: nat)
    requires depth <= 64 && FitsWidth(token) && TypeSpecSignature([0x12] + IntBytes(token)) == Some(Named(t))
    requires |pieces| < 0x80 && AllAt(pieces, types, depth + 1)
    ensures TypeAt([0x15] + ([kind] + (IntBytes(token) + ([|pieces|] + Flat(pieces)))), depth) ==
            if kind == 0x11 || kind == 0x12 then Some(Generic(Named(t), types)) else None
  {
    hide DecodeType, DecodeTypes, ParseInt, ParseCount, IntBytes, Token, IsToken, FitsWidth, Flat, TypeSpecSignature, AllAt;
    var tail := [|pieces|] + Flat(pieces);
    var s1 := [kind] + (IntBytes(token) + tail);
    var s := [0x15] + s1;
    Cons(0x15, s1);
    Cons(kind, IntBytes(token) + tail);
    assert s[1] == kind && s[2..] == IntBytes(token) + tail;
    InstanceStep(s, depth);
    TokenAt(0x12, token);
    IntComplete(token, tail);
    FlatTypes(pieces, types, depth + 1, []);
    assert Flat(pieces) + [] == Flat(pieces);
    SmallCount(|pieces|, Flat(pieces));
  }

  /** Required and optional modifiers: a token, then the type. */
  lemma ModifierCodes(token: Compressed, t: nat, s: seq<byte>, depth: nat)
    requires depth <= 64 && FitsWidth(token) && TypeSpecSignature([0x12] + IntBytes(token)) == Some(Named(t))
    ensures var e := TypeAt(s, depth + 1);
            && TypeAt([0x1f] + (IntBytes(token) + s), depth) == (if e.None? then None else Some(Modified(true, t, e.value)))
            && TypeAt([0x20] + (IntBytes(token) + s), depth) == (if e.None? then None else Some(Modified(false, t, e.value)))
  {
    hide DecodeType, ParseInt, IntBytes, Token, TypeSpecSignature;
    TokenAt(0x12, token);
    IntComplete(token, s);
    Cons(0x1f, IntBytes(token) + s); Cons(0x20, IntBytes(token) + s);
    TypeStep([0x1f] + (IntBytes(token) + s), depth);
    TypeStep([0x20] + (IntBytes(token) + s), depth);
  }

  /** A method signature that fills its bytes. */
  function MethodAt(s: seq<byte>, depth: nat): Option<SignatureMethod> {
    Whole(DecodeMethod(s, depth))
  }

  /** A function pointer is a method two levels down. */
  lemma FunctionCode(s: seq<byte>, depth: nat)
    requires depth <= 64
    ensures var m := MethodAt(s, depth + 1);
            TypeAt([0x1b] + s, depth) == if m.None? then None else Some(Function(m.value))
  {
    hide DecodeType, DecodeMethod;
    Cons(0x1b, s);
    TypeStep([0x1b] + s, depth);
  }

  // ----- Array shapes (II.23.2.13) -----

  function Small(bytes: seq<byte>): (r: seq<Compressed>) {
    seq(|bytes|, i requires 0 <= i < |bytes| => Compressed(bytes[i], 7))
  }

  lemma {:induction false} SmallInts(bytes: seq<byte>, rest: seq<byte>)
    requires forall b :: b in bytes ==> b < 0x80
    ensures ParseInts(bytes + rest, |bytes|) == Some(Parsed(Small(bytes), rest))
  {
    hide ParseInt;
    if bytes == [] {
      assert bytes + rest == rest;
    } else {
      assert bytes[0] in bytes && forall b :: b in bytes[1..] ==> b in bytes;
      assert bytes + rest == [bytes[0]] + (bytes[1..] + rest);
      SmallCount(bytes[0], bytes[1..] + rest);
      SmallInts(bytes[1..], rest);
      assert Small(bytes) == [Compressed(bytes[0], 7)] + Small(bytes[1..]);
    }
  }

  /** A one-byte signed integer: its lowest bit is the sign. */
  function SmallSign(b: byte): int {
    if b % 2 == 1 then b / 2 - 64 else b / 2
  }

  function SmallSigned(bytes: seq<byte>): seq<int> {
    seq(|bytes|, i requires 0 <= i < |bytes| => SmallSign(bytes[i]))
  }

  /** An array: the element, its rank, its sizes, its lower bounds; at most as many of these as the rank. */
  lemma ArrayCode(piece: seq<byte>, e: TypeSignature, rank: byte, sizes: seq<byte>, bounds: seq<byte>, depth: nat)
    requires depth <= 64 && TypeAt(piece, depth + 1) == Some(e) && rank < 0x80 && |sizes| < 0x80 && |bounds| < 0x80
    requires (forall b :: b in sizes ==> b < 0x80) && (forall b :: b in bounds ==> b < 0x80)
    ensures TypeAt([0x14] + (piece + ([rank] + ([|sizes|] + (sizes + ([|bounds|] + bounds))))), depth) ==
            if 1 <= rank <= 32 && |sizes| <= rank && |bounds| <= rank
            then Some(Array(e, rank, sizes, SmallSigned(bounds))) else None
  {
    hide DecodeType, ParseInt, ParseInts, ParseShape, TypeAt;
    var shape: seq<byte> := [rank] + ([|sizes|] + (sizes + ([|bounds|] + bounds)));
    Cons(0x14, piece + shape);
    WholeIsFirst(piece, e, depth + 1, shape);
    ArrayStep([0x14] + (piece + shape), depth);
    SmallShape(rank, sizes, bounds);
    var s := Shape(Compressed(rank, 7), Compressed(|sizes|, 7), Small(sizes), Compressed(|bounds|, 7), Small(bounds));
    if ParseShape(shape).Some? {
      SmallValues(sizes, bounds);
      assert ArrayOf(e, s) == Array(e, rank, sizes, SmallSigned(bounds));
    }
    TypeAtIs([0x14] + (piece + shape), depth);
  }

  lemma TypeAtIs(s: seq<byte>, depth: nat)
    ensures TypeAt(s, depth) == Whole(DecodeType(s, depth))
  {
  }

  lemma SmallValues(sizes: seq<byte>, bounds: seq<byte>)
    requires (forall b :: b in sizes ==> b < 0x80) && (forall b :: b in bounds ==> b < 0x80)
    ensures Values(Small(sizes)) == sizes
    ensures (forall n :: n in Small(bounds) ==> FitsWidth(n)) && SignedValues(Small(bounds)) == SmallSigned(bounds)
  {
    forall n | n in Small(bounds) ensures FitsWidth(n) {
      var i :| 0 <= i < |bounds| && n == Compressed(bounds[i], 7);
      assert bounds[i] in bounds;
    }
  }

  lemma SmallShape(rank: byte, sizes: seq<byte>, bounds: seq<byte>)
    requires rank < 0x80 && |sizes| < 0x80 && |bounds| < 0x80
    requires (forall b :: b in sizes ==> b < 0x80) && (forall b :: b in bounds ==> b < 0x80)
    ensures ParseShape([rank] + ([|sizes|] + (sizes + ([|bounds|] + bounds)))) ==
            if 1 <= rank <= 32 && |sizes| <= rank && |bounds| <= rank
            then Some(Parsed(Shape(Compressed(rank, 7), Compressed(|sizes|, 7), Small(sizes), Compressed(|bounds|, 7), Small(bounds)), []))
            else None
  {
    hide ParseInt, ParseInts, FitsWidth, ParseCount;
    var s4: seq<byte> := [|bounds|] + bounds;
    var s3: seq<byte> := sizes + s4;
    var s2: seq<byte> := [|sizes|] + s3;
    SmallCount(rank, s2);
    SmallCount(|sizes|, s3);
    SmallInts(sizes, s4);
    SmallCount(|bounds|, bounds);
    assert bounds + [] == bounds;
    SmallInts(bounds, []);
  }

  // ----- Methods and properties (II.23.2.1 to II.23.2.5) -----

  lemma PieceIsNoSentinel(piece: seq<byte>, t: TypeSignature, depth: nat)
    requires TypeAt(piece, depth) == Some(t)
    ensures piece != [] && piece[0] != 0x41
  {
    hide DecodeType;
    TypeStep(piece, depth);
  }

  lemma {:induction false} FlatParams(pieces: seq<seq<byte>>, types: seq<TypeSignature>, depth: nat, allowed: bool)
    requires AllAt(pieces, types, depth)
    ensures DecodeParams(Flat(pieces), depth, |pieces|, allowed) == Some(Parsed(Params(types, None), []))
  {
    hide DecodeType, DecodeParams, TypeAt;
    ParamsStep(Flat(pieces), depth, |pieces|, allowed);
    if pieces != [] {
      PieceIsNoSentinel(pieces[0], types[0], depth);
      WholeIsFirst(pieces[0], types[0], depth, Flat(pieces[1..]));
      FlatParams(pieces[1..], types[1..], depth, allowed);
      assert types == [types[0]] + types[1..];
    }
  }

  /** The sentinel stands in front of the first optional parameter, and is counted up to there. */
  lemma {:induction false} SentinelParams(pieces: seq<seq<byte>>, types: seq<TypeSignature>, depth: nat, k: nat, allowed: bool)
    requires AllAt(pieces, types, depth) && k < |pieces|
    ensures DecodeParams(Flat(pieces[..k]) + ([0x41] + Flat(pieces[k..])), depth, |pieces|, allowed) ==
            if allowed then Some(Parsed(Params(types, Some(k)), [])) else None
    decreases k
  {
    hide DecodeType, DecodeParams, TypeAt;
    var rest := [0x41] + Flat(pieces[k..]);
    var s := Flat(pieces[..k]) + rest;
    ParamsStep(s, depth, |pieces|, allowed);
    assert types == [types[0]] + types[1..];
    if k == 0 {
      assert s == rest && pieces[0..] == pieces && s[1..] == pieces[0] + Flat(pieces[1..]);
      WholeIsFirst(pieces[0], types[0], depth, Flat(pieces[1..]));
      FlatParams(pieces[1..], types[1..], depth, false);
    } else {
      assert pieces[..k][1..] == pieces[1..][..k - 1] && pieces[k..] == pieces[1..][k - 1..];
      Assoc(pieces[0], Flat(pieces[..k][1..]), rest);
      PieceIsNoSentinel(pieces[0], types[0], depth);
      WholeIsFirst(pieces[0], types[0], depth, Flat(pieces[..k][1..]) + rest);
      SentinelParams(pieces[1..], types[1..], depth, k - 1, allowed);
    }
  }

  /** Parameters with a sentinel in front of parameter `k`, if there is one. */
  function Listed(pieces: seq<seq<byte>>, sentinel: Option<nat>): seq<byte>
    requires sentinel.Some? ==> sentinel.value < |pieces|
  {
    if sentinel.Some? then Flat(pieces[..sentinel.value]) + ([0x41] + Flat(pieces[sentinel.value..])) else Flat(pieces)
  }

  lemma ListedParams(pieces: seq<seq<byte>>, types: seq<TypeSignature>, depth: nat, sentinel: Option<nat>, allowed: bool)
    requires AllAt(pieces, types, depth) && (sentinel.Some? ==> sentinel.value < |pieces|)
    ensures DecodeParams(Listed(pieces, sentinel), depth, |pieces|, allowed) ==
            if allowed || sentinel == None then Some(Parsed(Params(types, sentinel), [])) else None
    ensures |Listed(pieces, sentinel)| >= |pieces|
  {
    hide DecodeParams, AllAt;
    FlatIsLong(pieces, types, depth);
    if sentinel.Some? {
      var k := sentinel.value;
      SentinelParams(pieces, types, depth, k, allowed);
      FlatJoins(pieces[..k], pieces[k..]);
      assert pieces[..k] + pieces[k..] == pieces;
    } else {
      FlatParams(pieces, types, depth, allowed);
    }
  }

  lemma FlatIsLong(pieces: seq<seq<byte>>, types: seq<TypeSignature>, depth: nat)
    requires AllAt(pieces, types, depth)
    ensures |Flat(pieces)| >= |pieces|
  {
    FlatTypes(pieces, types, depth, []);
  }

  lemma {:induction false} FlatJoins(a: seq<seq<byte>>, b: seq<seq<byte>>)
    ensures Flat(a + b) == Flat(a) + Flat(b)
  {
    if a == [] {
      assert a + b == b;
    } else {
      assert (a + b)[1..] == a[1..] + b;
      FlatJoins(a[1..], b);
    }
  }

  /** Masks of the calling convention, as sums of its two hexadecimal digits. */
  lemma ConventionDigits(high: nat, low: nat)
    requires high < 0x10 && low < 0x10
    ensures IsConvention(0x10 * high + low) <==> high < 8 && low in {0, 1, 2, 3, 4, 5, 9, 11}
    ensures IsGeneric(0x10 * high + low) <==> high in {1, 3, 5, 7, 9, 11, 13, 15}
    ensures IsVararg(0x10 * high + low) <==> low in {5, 11}
    ensures IsProperty(0x10 * high + low) <==> (high == 0 || high == 2) && low == 8
  {
    assert (0x10 * high + low) / 0x10 == high && (0x10 * high + low) % 0x10 == low;
  }

  /**
   A method: its convention, the number of its generic parameters if it is generic, the number of
   its parameters, the return type, the parameters. Only varargs have a sentinel.
   */
  lemma MethodCode(flags: byte, generics: Compressed, piece: seq<byte>, t: TypeSignature,
                   pieces: seq<seq<byte>>, types: seq<TypeSignature>, sentinel: Option<nat>, depth: nat)
    requires depth <= 64 && FitsWidth(generics) && TypeAt(piece, depth + 1) == Some(t)
    requires |pieces| < 0x80 && AllAt(pieces, types, depth + 1) && (sentinel.Some? ==> sentinel.value < |pieces|)
    ensures var generic := flags / 0x10 % 2 == 1;
            MethodAt([flags] + ((if generic then IntBytes(generics) else []) +
                                ([|pieces|] + (piece + Listed(pieces, sentinel)))), depth) ==
            if flags < 0x80 && flags % 0x10 in {0, 1, 2, 3, 4, 5, 9, 11} && (generic ==> generics.value <= 65535)
               && (sentinel.Some? ==> flags % 0x10 == 5 || flags % 0x10 == 11)
            then Some(SignatureMethod(flags, if generic then generics.value else 0, t, types, sentinel)) else None
  {
    hide DecodeType, DecodeMethod, DecodeParams, ParseInt, ParseCount, IntBytes, FitsWidth, AllAt, TypeAt, Listed;
    var generic := flags / 0x10 % 2 == 1;
    var s3: seq<byte> := piece + Listed(pieces, sentinel);
    var s2: seq<byte> := [|pieces|] + s3;
    var s1 := (if generic then IntBytes(generics) else []) + s2;
    Cons(flags, s1);
    MethodStep([flags] + s1, depth);
    assert [] + s2 == s2;
    IntComplete(generics, s2);
    ListedParams(pieces, types, depth + 1, sentinel, IsVararg(flags));
    SmallCount(|pieces|, s3);
    WholeIsFirst(piece, t, depth + 1, Listed(pieces, sentinel));
    ConventionDigits(flags / 0x10, flags % 0x10);
  }

  /** A property: 8 or 28 hexadecimal, the number of its parameters, its type, the parameters. */
  lemma PropertyCode(flags: byte, piece: seq<byte>, t: TypeSignature, pieces: seq<seq<byte>>, types: seq<TypeSignature>)
    requires TypeAt(piece, 0) == Some(t) && |pieces| < 0x80 && AllAt(pieces, types, 0)
    ensures PropertySignature([flags] + ([|pieces|] + (piece + Flat(pieces)))) ==
            if flags == 0x08 || flags == 0x28 then Some(SignatureMethod(flags, 0, t, types, None)) else None
  {
    hide DecodeType, DecodeTypes, ParseInt, ParseCount, AllAt, TypeAt, Flat;
    var s2: seq<byte> := piece + Flat(pieces);
    var s1: seq<byte> := [|pieces|] + s2;
    Cons(flags, s1);
    FlatTypes(pieces, types, 0, []);
    assert Flat(pieces) + [] == Flat(pieces);
    SmallCount(|pieces|, s2);
    WholeIsFirst(piece, t, 0, Flat(pieces));
  }

  // ----- The depth limit -----

  function Pointers(n: nat): seq<byte> {
    if n == 0 then [0x08] else [0x0f] + Pointers(n - 1)
  }

  /** Sixty-four levels of nesting are accepted below the outermost type, and no more. */
  lemma {:induction false} DepthLimitIsSharp(n: nat, depth: nat)
    requires depth <= 65
    ensures TypeAt(Pointers(n), depth).Some? <==> depth + n <= 64
    decreases n
  {
    hide TypeAt;
    if depth > 64 {
      TooDeep(Pointers(n), depth);
    } else if n == 0 {
      OneByteAt(depth);
    } else {
      WrapperCodes(Pointers(n - 1), depth);
      DepthLimitIsSharp(n - 1, depth + 1);
    }
  }

  lemma TooDeep(s: seq<byte>, depth: nat)
    requires depth > 64
    ensures TypeAt(s, depth) == None && MethodAt(s, depth) == None
  {
    hide DecodeType, DecodeMethod;
    TypeStep(s, depth);
    MethodStep(s, depth);
  }

  lemma OneByteAt(depth: nat)
    requires depth <= 64
    ensures TypeAt([0x08], depth).Some?
  {
    hide DecodeType;
    assert [0x08][1..] == [];
    TypeStep([0x08], depth);
  }

  /** A field is 6 and a type; a type spec and a method are nothing more than that. */
  lemma FieldCode(code: byte, s: seq<byte>)
    ensures FieldSignature([code] + s) == if code == 0x06 then TypeAt(s, 0) else None
    ensures TypeSpecSignature(s) == TypeAt(s, 0) && MethodSignature(s) == MethodAt(s, 0)
    ensures FieldSignature([]) == None
  {
    hide DecodeType, DecodeMethod;
    Cons(code, s);
  }
}
