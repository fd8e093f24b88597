/** The four entry points of `src/signature.rs`, and what they promise together. */
module SignatureEntry {
  import opened Common
  import opened SignatureSyntax
  import opened SignatureGrammar
  import opened SignatureDecoder
  import opened SignatureTrees

  // ----- What each entry point accepts -----

  /** Nothing may follow a signature. */
  function Whole<T>(r: Option<Parsed<T>>): Option<T> {
    if r.Some? && r.value.rest == [] then Some(r.value.value) else None
  }

  function MethodSignature(bytes: seq<byte>): Option<SignatureMethod> {
    Whole(DecodeMethod(bytes, 0))
  }

  function FieldSignature(bytes: seq<byte>): Option<TypeSignature> {
    if bytes == [] || bytes[0] != 0x06 then None else Whole(DecodeType(bytes[1..], 0))
  }

  function TypeSpecSignature(bytes: seq<byte>): Option<TypeSignature> {
    Whole(DecodeType(bytes, 0))
  }

  /** Properties are marked 8, with or without an instance bit. */
  predicate IsProperty(flags: byte) { flags == 0x08 || flags == 0x28 }

  function DecodeProperty(bytes: seq<byte>): Option<Parsed<SignatureMethod>> {
    if bytes == [] || !IsProperty(bytes[0]) then None
    else
      var count :- ParseCount(bytes[1..]);
      var returnType :- DecodeType(count.rest, 0);
      var params :- DecodeTypes(returnType.rest, 0, count.value.value);
      Some(Parsed(SignatureMethod(bytes[0], 0, returnType.value, params.value, None), params.rest))
  }

  function PropertySignature(bytes: seq<byte>): Option<SignatureMethod> {
    Whole(DecodeProperty(bytes))
  }

  method ParseMethodSignature(bytes: seq<byte>) returns (r: Option<SignatureMethod>)
    ensures r == MethodSignature(bytes)
  {
    hide DecodeMethod;
    var d := new Decoder(bytes);
    var m := d.Method(0);
    if m.None? { return None; }
    var done := d.Finish();
    return if done then m else None;
  }

  method ParseFieldSignature(bytes: seq<byte>) returns (r: Option<TypeSignature>)
    ensures r == FieldSignature(bytes)
  {
    hide DecodeType;
    var d := new Decoder(bytes);
    var prefix := d.Byte();
    if prefix != Some(0x06) { return None; }
    var ty := d.Ty(0);
    if ty.None? { return None; }
    var done := d.Finish();
    return if done then ty else None;
  }

  method ParseTypeSpecSignature(bytes: seq<byte>) returns (r: Option<TypeSignature>)
    ensures r == TypeSpecSignature(bytes)
  {
    hide DecodeType;
    var d := new Decoder(bytes);
    var ty := d.Ty(0);
    if ty.None? { return None; }
    var done := d.Finish();
    return if done then ty else None;
  }

  method ParsePropertySignature(bytes: seq<byte>) returns (r: Option<SignatureMethod>)
    ensures r == PropertySignature(bytes)
  {
    hide DecodeType, DecodeTypes, ParseCount;
    var d := new Decoder(bytes);
    var flags := d.Byte();
    if flags.None? || !IsProperty(flags.value) { return None; }
    var count := d.Count();
    if count.None? { return None; }
    var returnType := d.Ty(0);
    if returnType.None? { return None; }
    var params := d.Types(0, count.value);
    if params.None? { return None; }
    var done := d.Finish();
    return if done then Some(SignatureMethod(flags.value, 0, returnType.value, params.value, None)) else None;
  }

  // ----- Appended bytes are left alone -----

  lemma TypeIsStable(s: seq<byte>, depth: nat, more: seq<byte>)
    requires DecodeType(s, depth).Some?
    ensures DecodeType(s + more, depth) == Some(Parsed(DecodeType(s, depth).value.value, DecodeType(s, depth).value.rest + more))
  {
    hide Bytes, Meaning, WellFormed, ParseType;
    var p := ParseType(s, depth).value;
    TypeSound(s, depth);
    Assoc(Bytes(p.value, depth), p.rest, more);
    TypeComplete(p.value, depth, p.rest + more);
  }

  lemma TypesAreStable(s: seq<byte>, depth: nat, n: nat, more: seq<byte>)
    requires DecodeTypes(s, depth, n).Some?
    ensures DecodeTypes(s + more, depth, n) == Some(Parsed(DecodeTypes(s, depth, n).value.value, DecodeTypes(s, depth, n).value.rest + more))
  {
    hide AllBytes, Meanings, AllWellFormed, ParseTypes;
    var p := ParseTypes(s, depth, n).value;
    TypesSound(s, depth, n);
    Assoc(AllBytes(p.value, depth), p.rest, more);
    TypesComplete(p.value, depth, p.rest + more);
  }

  lemma MethodIsStable(s: seq<byte>, depth: nat, more: seq<byte>)
    requires DecodeMethod(s, depth).Some?
    ensures DecodeMethod(s + more, depth) == Some(Parsed(DecodeMethod(s, depth).value.value, DecodeMethod(s, depth).value.rest + more))
  {
    hide MethodBytes, MethodMeaning, MethodWellFormed, ParseMethod;
    var p := ParseMethod(s, depth).value;
    MethodSound(s, depth);
    Assoc(MethodBytes(p.value, depth), p.rest, more);
    MethodComplete(p.value, depth, p.rest + more);
  }

  lemma CountIsStable(s: seq<byte>, more: seq<byte>)
    requires ParseCount(s).Some?
    ensures ParseCount(s + more) == Some(Parsed(ParseCount(s).value.value, ParseCount(s).value.rest + more))
  {
    hide IntBytes, ParseInt;
    var p := ParseInt(s).value;
    IntSound(s);
    Assoc(IntBytes(p.value), p.rest, more);
    IntComplete(p.value, p.rest + more);
  }

  lemma PropertyIsStable(s: seq<byte>, more: seq<byte>)
    requires DecodeProperty(s).Some?
    ensures DecodeProperty(s + more) == Some(Parsed(DecodeProperty(s).value.value, DecodeProperty(s).value.rest + more))
  {
    hide DecodeType, DecodeTypes, ParseCount;
    var count := ParseCount(s[1..]).value;
    var returnType := DecodeType(count.rest, 0).value;
    assert (s + more)[1..] == s[1..] + more;
    CountIsStable(s[1..], more);
    TypeIsStable(count.rest, 0, more);
    TypesAreStable(returnType.rest, 0, count.value.value, more);
  }

  /** So no entry point accepts both a signature and a longer one that starts with it. */
  lemma NoPrefixIsAccepted(bytes: seq<byte>, more: seq<byte>)
    requires more != []
    ensures MethodSignature(bytes).Some? ==> MethodSignature(bytes + more) == None
    ensures FieldSignature(bytes).Some? ==> FieldSignature(bytes + more) == None
    ensures TypeSpecSignature(bytes).Some? ==> TypeSpecSignature(bytes + more) == None
    ensures PropertySignature(bytes).Some? ==> PropertySignature(bytes + more) == None
  {
    hide DecodeType, DecodeMethod, DecodeProperty;
    if MethodSignature(bytes).Some? { MethodIsStable(bytes, 0, more); }
    if TypeSpecSignature(bytes).Some? { TypeIsStable(bytes, 0, more); }
    if PropertySignature(bytes).Some? { PropertyIsStable(bytes, more); }
    if FieldSignature(bytes).Some? {
      assert (bytes + more)[1..] == bytes[1..] + more;
      TypeIsStable(bytes[1..], 0, more);
    }
  }

  // ----- Round trips -----

  /** The canonical encoding of a type; a field puts 6 in front of it. */
  function EncodeType(t: TypeSignature): seq<byte>
    requires Writable(t, 0)
  {
    Bytes(Canonical(t, 0), 0)
  }

  function EncodeMethod(m: SignatureMethod): seq<byte>
    requires MethodWritable(m, 0)
  {
    MethodBytes(CanonicalMethod(m, 0), 0)
  }

  predicate PropertyWritable(m: SignatureMethod) {
    && IsProperty(m.flags) && m.genericCount == 0 && m.sentinel == None && |m.params| < BITS29
    && Writable(m.returnType, 0) && AllWritable(m.params, 0)
  }

  function EncodeProperty(m: SignatureMethod): seq<byte>
    requires PropertyWritable(m)
  {
    [m.flags] + (IntBytes(Shortest(|m.params|)) +
      (Bytes(Canonical(m.returnType, 0), 0) + AllBytes(CanonicalAll(m.params, 0), 0)))
  }

  lemma TypeRoundTrip(t: TypeSignature)
    requires Writable(t, 0)
    ensures TypeSpecSignature(EncodeType(t)) == Some(t)
    ensures FieldSignature([0x06] + EncodeType(t)) == Some(t)
  {
    hide Bytes, Canonical, Writable, Meaning, WellFormed, ParseType;
    var c := Canonical(t, 0);
    assert EncodeType(t) + [] == EncodeType(t) && ([0x06] + EncodeType(t))[1..] == EncodeType(t);
    TypeComplete(c, 0, []);
    CanonicalMeans(t, 0);
  }

  lemma MethodRoundTrip(m: SignatureMethod)
    requires MethodWritable(m, 0)
    ensures MethodSignature(EncodeMethod(m)) == Some(m)
  {
    hide MethodBytes, CanonicalMethod, MethodWritable, MethodMeaning, MethodWellFormed, ParseMethod;
    assert EncodeMethod(m) + [] == EncodeMethod(m);
    MethodComplete(CanonicalMethod(m, 0), 0, []);
    CanonicalMethodMeans(m, 0);
  }

  lemma PropertyRoundTrip(m: SignatureMethod)
    requires PropertyWritable(m)
    ensures PropertySignature(EncodeProperty(m)) == Some(m)
  {
    hide Bytes, AllBytes, Canonical, CanonicalAll, Writable, AllWritable, Meaning, Meanings, WellFormed, AllWellFormed, ParseType, ParseTypes, IntBytes, ParseInt;
    var t, ps := Canonical(m.returnType, 0), CanonicalAll(m.params, 0);
    var tail := AllBytes(ps, 0);
    assert EncodeProperty(m)[1..] == IntBytes(Shortest(|m.params|)) + (Bytes(t, 0) + tail);
    assert tail + [] == tail;
    IntComplete(Shortest(|m.params|), Bytes(t, 0) + tail);
    TypeComplete(t, 0, tail);
    TypesComplete(ps, 0, []);
    CanonicalMeans(m.returnType, 0);
    CanonicalAllMean(m.params, 0);
  }

  /** Only writable trees are ever read, and no tree is larger than its signature. */
  lemma AcceptedTypes(bytes: seq<byte>)
    requires TypeSpecSignature(bytes).Some?
    ensures Writable(TypeSpecSignature(bytes).value, 0) && Nodes(TypeSpecSignature(bytes).value) <= |bytes|
  {
    hide Bytes, Meaning, WellFormed, ParseType, Writable, Nodes;
    TypeSound(bytes, 0);
    var c := ParseType(bytes, 0).value.value;
    MeaningIsWritable(c, 0);
    NodesTakeBytes(c, 0);
  }

  lemma AcceptedMethods(bytes: seq<byte>)
    requires MethodSignature(bytes).Some?
    ensures MethodWritable(MethodSignature(bytes).value, 0) && MethodNodes(MethodSignature(bytes).value) <= |bytes|
  {
    hide MethodBytes, MethodMeaning, MethodWellFormed, ParseMethod, MethodWritable, MethodNodes;
    MethodSound(bytes, 0);
    var m := ParseMethod(bytes, 0).value.value;
    MethodMeaningIsWritable(m, 0);
    MethodNodesTakeBytes(m, 0);
  }
}
