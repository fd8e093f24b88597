/**
 Signatures of ECMA-335 Partition II section 23.2: the trees that `src/signature.rs`
 produces, and the concrete syntax they are written in. The syntax keeps what the trees
 forget: how wide an integer is written, and whether a named type is a class or a value type.
 */
module SignatureSyntax {
  import opened Common

  const DEPTH_LIMIT := 64

  // ----- The decoded trees -----

  datatype TypeSignature =
    | Primitive(name: string)
    | Named(token: nat)
    | GenericType(number: nat)
    | GenericMethod(number: nat)
    | Pointer(element: TypeSignature)
    | ByRef(element: TypeSignature)
    | Vector(element: TypeSignature)
    | Array(element: TypeSignature, rank: nat, sizes: seq<nat>, lowerBounds: seq<int>)
    | Generic(base: TypeSignature, arguments: seq<TypeSignature>)
    | Function(target: SignatureMethod)
    | Modified(required: bool, modifier: nat, element: TypeSignature)
    | Pinned(element: TypeSignature)

  datatype SignatureMethod =
    SignatureMethod(flags: byte, genericCount: nat, returnType: TypeSignature,
                    params: seq<TypeSignature>, sentinel: Option<nat>)

  // ----- Compressed integers (II.23.2) -----

  /** A compressed integer with the number of value bits it is written in. */
  datatype Compressed = Compressed(value: nat, width: nat)

  const BITS14 := 0x4000
  const BITS24 := 0x100_0000
  const BITS29 := 0x2000_0000

  predicate FitsWidth(n: Compressed) {
    || (n.width == 7 && n.value < 0x80)
    || (n.width == 14 && n.value < BITS14)
    || (n.width == 29 && n.value < BITS29)
  }

  function IntBytes(n: Compressed): (r: seq<byte>)
    requires FitsWidth(n)
    ensures |r| == if n.width == 7 then 1 else if n.width == 14 then 2 else 4
  {
    if n.width == 7 then [n.value]
    else if n.width == 14 then [0x80 + n.value / 0x100, n.value % 0x100]
    else [0xc0 + n.value / BITS24, n.value / 0x1_0000 % 0x100, n.value / 0x100 % 0x100, n.value % 0x100]
  }

  /** A signed value is rotated left by one bit, its sign in the lowest one. */
  function Signed(n: Compressed): int
    requires FitsWidth(n)
  {
    var half := if n.width == 7 then 0x40 else if n.width == 14 then BITS14 / 2 else BITS29 / 2;
    n.value / 2 - (if n.value % 2 == 1 then half else 0)
  }

  /** TypeDefOrRefOrSpec tokens: two bits of table, then the row. */
  predicate IsToken(n: Compressed) {
    FitsWidth(n) && n.value % 4 != 3 && 1 <= n.value / 4 <= 0xff_ffff
  }

  function Token(n: Compressed): nat
    requires IsToken(n)
  {
    (if n.value % 4 == 0 then 0x02 else if n.value % 4 == 1 then 0x01 else 0x1b) * BITS24 + n.value / 4
  }

  function AllIntBytes(ns: seq<Compressed>): (r: seq<byte>)
    requires forall n :: n in ns ==> FitsWidth(n)
    ensures |r| >= |ns|
  {
    if ns == [] then [] else IntBytes(ns[0]) + AllIntBytes(ns[1..])
  }

  // ----- Element types (II.23.1.16) -----

  datatype Kind = Simple | Unary | Class | Variable | ArrayKind | Instance | FunctionPointer | Modifier | Unknown

  function KindOf(code: byte): Kind {
    if 0x01 <= code <= 0x0e || code in {0x16, 0x18, 0x19, 0x1c} then Simple
    else if code in {0x0f, 0x10, 0x1d, 0x45} then Unary
    else if code in {0x11, 0x12} then Class
    else if code in {0x13, 0x1e} then Variable
    else if code == 0x14 then ArrayKind
    else if code == 0x15 then Instance
    else if code == 0x1b then FunctionPointer
    else if code in {0x1f, 0x20} then Modifier
    else Unknown
  }

  function SimpleName(code: byte): string {
    match code
    case 0x01 => "void"
    case 0x02 => "bool"
    case 0x03 => "char"
    case 0x04 => "sbyte"
    case 0x05 => "byte"
    case 0x06 => "short"
    case 0x07 => "ushort"
    case 0x08 => "int"
    case 0x09 => "uint"
    case 0x0a => "long"
    case 0x0b => "ulong"
    case 0x0c => "float"
    case 0x0d => "double"
    case 0x0e => "string"
    case 0x16 => "System.TypedReference"
    case 0x18 => "nint"
    case 0x19 => "nuint"
    case _ => "object"
  }

  const SENTINEL: byte := 0x41

  // ----- Concrete syntax -----

  /** ArrayShape (II.23.2.13). */
  datatype Shape = Shape(rank: Compressed, sizeCount: Compressed, sizes: seq<Compressed>,
                         boundCount: Compressed, bounds: seq<Compressed>)

  datatype Syntax =
    | SimpleType(code: byte)
    | UnaryType(code: byte, element: Syntax)
    | ClassType(code: byte, token: Compressed)
    | VariableType(code: byte, number: Compressed)
    | ArrayType(element: Syntax, shape: Shape)
    | InstanceType(code: byte, token: Compressed, count: Compressed, arguments: seq<Syntax>)
    | FunctionType(target: MethodSyntax)
    | ModifiedType(code: byte, token: Compressed, element: Syntax)

  datatype MethodSyntax =
    MethodSyntax(flags: byte, generics: Option<Compressed>, count: Compressed, returnType: Syntax,
                 params: seq<Syntax>, sentinel: Option<nat>)

  predicate ShapeWellFormed(a: Shape) {
    && FitsWidth(a.rank) && 1 <= a.rank.value <= 32
    && FitsWidth(a.sizeCount) && a.sizeCount.value == |a.sizes| <= a.rank.value
    && FitsWidth(a.boundCount) && a.boundCount.value == |a.bounds| <= a.rank.value
    && (forall n :: n in a.sizes ==> FitsWidth(n))
    && (forall n :: n in a.bounds ==> FitsWidth(n))
  }

  function ShapeBytes(a: Shape): seq<byte>
    requires ShapeWellFormed(a)
  {
    IntBytes(a.rank) + IntBytes(a.sizeCount) + AllIntBytes(a.sizes) + IntBytes(a.boundCount) + AllIntBytes(a.bounds)
  }

  predicate IsVararg(flags: byte) { flags % 0x10 == 5 || flags % 0x10 == 11 }

  predicate IsGeneric(flags: byte) { flags / 0x10 % 2 == 1 }

  predicate IsConvention(flags: byte) {
    flags < 0x80 && (flags % 0x10 <= 5 || flags % 0x10 == 9 || flags % 0x10 == 11)
  }

  /** What may be written at a nesting depth; a function pointer costs two levels. */
  predicate WellFormed(c: Syntax, depth: nat)
    decreases c
  {
    depth <= DEPTH_LIMIT &&
    match c
    case SimpleType(code) => KindOf(code) == Simple
    case UnaryType(code, element) => KindOf(code) == Unary && WellFormed(element, depth + 1)
    case ClassType(code, token) => KindOf(code) == Class && IsToken(token)
    case VariableType(code, number) => KindOf(code) == Variable && FitsWidth(number)
    case ArrayType(element, shape) => WellFormed(element, depth + 1) && ShapeWellFormed(shape)
    case InstanceType(code, token, count, arguments) =>
      && KindOf(code) == Class && IsToken(token) && FitsWidth(count) && count.value == |arguments|
      && AllWellFormed(arguments, depth + 1)
    case FunctionType(m) => MethodWellFormed(m, depth + 1)
    case ModifiedType(code, token, element) => KindOf(code) == Modifier && IsToken(token) && WellFormed(element, depth + 1)
  }

  predicate AllWellFormed(cs: seq<Syntax>, depth: nat)
    decreases cs
  {
    cs == [] || (WellFormed(cs[0], depth) && AllWellFormed(cs[1..], depth))
  }

  predicate MethodWellFormed(m: MethodSyntax, depth: nat)
    decreases m
  {
    && depth <= DEPTH_LIMIT
    && IsConvention(m.flags)
    && (m.generics.Some? <==> IsGeneric(m.flags))
    && (m.generics.Some? ==> FitsWidth(m.generics.value) && m.generics.value.value <= 65535)
    && FitsWidth(m.count) && m.count.value == |m.params|
    && WellFormed(m.returnType, depth + 1)
    && AllWellFormed(m.params, depth + 1)
    && (m.sentinel.Some? ==> IsVararg(m.flags) && m.sentinel.value < |m.params|)
  }

  function Bytes(c: Syntax, depth: nat): (r: seq<byte>)
    requires WellFormed(c, depth)
    ensures |r| > 0 && r[0] != SENTINEL
    decreases c
  {
    match c
    case SimpleType(code) => [code]
    case UnaryType(code, element) => [code] + Bytes(element, depth + 1)
    case ClassType(code, token) => [code] + IntBytes(token)
    case VariableType(code, number) => [code] + IntBytes(number)
    case ArrayType(element, shape) => [0x14] + (Bytes(element, depth + 1) + ShapeBytes(shape))
    case InstanceType(code, token, count, arguments) =>
      [0x15] + ([code] + (IntBytes(token) + (IntBytes(count) + AllBytes(arguments, depth + 1))))
    case FunctionType(m) => [0x1b] + MethodBytes(m, depth + 1)
    case ModifiedType(code, token, element) => [code] + (IntBytes(token) + Bytes(element, depth + 1))
  }

  function AllBytes(cs: seq<Syntax>, depth: nat): (r: seq<byte>)
    requires AllWellFormed(cs, depth)
    ensures |r| >= |cs|
    decreases cs
  {
    if cs == [] then [] else Bytes(cs[0], depth) + AllBytes(cs[1..], depth)
  }

  function GenericsBytes(generics: Option<Compressed>): seq<byte>
    requires generics.Some? ==> FitsWidth(generics.value)
  {
    if generics.Some? then IntBytes(generics.value) else []
  }

  function MethodBytes(m: MethodSyntax, depth: nat): (r: seq<byte>)
    requires MethodWellFormed(m, depth)
    ensures |r| > 0
    decreases m
  {
    [m.flags] + (GenericsBytes(m.generics) + (IntBytes(m.count) +
      (Bytes(m.returnType, depth + 1) + ParamsBytes(m.params, depth + 1, m.sentinel))))
  }

  /** The vararg sentinel stands in front of the parameter it counts up to. */
  function ParamsBytes(ps: seq<Syntax>, depth: nat, sentinel: Option<nat>): (r: seq<byte>)
    requires AllWellFormed(ps, depth)
    ensures |r| >= |ps|
    decreases ps
  {
    if ps == [] then []
    else (if sentinel == Some(0) then [SENTINEL] else []) + (Bytes(ps[0], depth) + ParamsBytes(ps[1..], depth, OneOff(sentinel)))
  }

  function OneOff(sentinel: Option<nat>): Option<nat> {
    if sentinel.Some? && sentinel.value > 0 then Some(sentinel.value - 1) else None
  }

  // ----- Meaning -----

  function Meaning(c: Syntax, depth: nat): TypeSignature
    requires WellFormed(c, depth)
    decreases c
  {
    match c
    case SimpleType(code) => Primitive(SimpleName(code))
    case UnaryType(code, element) =>
      var e := Meaning(element, depth + 1);
      if code == 0x0f then Pointer(e) else if code == 0x10 then ByRef(e) else if code == 0x1d then Vector(e) else Pinned(e)
    case ClassType(_, token) => Named(Token(token))
    case VariableType(code, number) => if code == 0x13 then GenericType(number.value) else GenericMethod(number.value)
    case ArrayType(element, shape) =>
      Array(Meaning(element, depth + 1), shape.rank.value, Values(shape.sizes), SignedValues(shape.bounds))
    case InstanceType(_, token, _, arguments) => Generic(Named(Token(token)), Meanings(arguments, depth + 1))
    case FunctionType(m) => Function(MethodMeaning(m, depth + 1))
    case ModifiedType(code, token, element) => Modified(code == 0x1f, Token(token), Meaning(element, depth + 1))
  }

  function Values(ns: seq<Compressed>): seq<nat> {
    seq(|ns|, i requires 0 <= i < |ns| => ns[i].value)
  }

  function SignedValues(ns: seq<Compressed>): seq<int>
    requires forall n :: n in ns ==> FitsWidth(n)
  {
    seq(|ns|, i requires 0 <= i < |ns| => Signed(ns[i]))
  }

  function Meanings(cs: seq<Syntax>, depth: nat): (r: seq<TypeSignature>)
    requires AllWellFormed(cs, depth)
    ensures |r| == |cs|
    decreases cs
  {
    if cs == [] then [] else [Meaning(cs[0], depth)] + Meanings(cs[1..], depth)
  }

  function MethodMeaning(m: MethodSyntax, depth: nat): SignatureMethod
    requires MethodWellFormed(m, depth)
    decreases m
  {
    SignatureMethod(m.flags, if m.generics.Some? then m.generics.value.value else 0,
                    Meaning(m.returnType, depth + 1), Meanings(m.params, depth + 1), m.sentinel)
  }
}
