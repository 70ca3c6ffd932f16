/** The fixed-width decoders: the guarded read every primitive goes through, the
    ten integer primitives, and the exact-value refinements built on them.
 */
module BinaryParsers {
  import opened ParserStates
  import opened Engine
  import opened Integers
  import opened Decimal

  /** The data-view getters the primitives use. */
  datatype Getter = GetUint8 | GetInt8 | GetUint16 | GetInt16 | GetUint32 | GetInt32

  /** How many bytes a getter reads. */
  function Width(g: Getter): nat {
    match g
    case GetUint8 | GetInt8 => 1
    case GetUint16 | GetInt16 => 2
    case GetUint32 | GetInt32 => 4
  }

  predicate Signed(g: Getter) {
    g.GetInt8? || g.GetInt16? || g.GetInt32?
  }

  function Uint16At(d: seq<byte>, i: nat, littleEndian: bool): int
    requires i + 2 <= |d|
  {
    var b0, b1 := d[i] as int, d[i + 1] as int;
    if littleEndian then b0 + 0x100 * b1 else 0x100 * b0 + b1
  }

  function Uint32At(d: seq<byte>, i: nat, littleEndian: bool): int
    requires i + 4 <= |d|
  {
    var b0, b1, b2, b3 := d[i] as int, d[i + 1] as int, d[i + 2] as int, d[i + 3] as int;
    if littleEndian then b0 + 0x100 * b1 + 0x1_0000 * b2 + 0x100_0000 * b3
    else 0x100_0000 * b0 + 0x1_0000 * b1 + 0x100 * b2 + b3
  }

  /** What the data-view getter returns for the bytes at offset i, written out
      with byte arithmetic. */
  function GetValue(g: Getter, d: seq<byte>, i: nat, littleEndian: bool): int
    requires i + Width(g) <= |d|
  {
    match g
    case GetUint8 => d[i] as int
    case GetInt8 => if d[i] >= 0x80 then d[i] as int - 0x100 else d[i] as int
    case GetUint16 => Uint16At(d, i, littleEndian)
    case GetInt16 =>
      var u := Uint16At(d, i, littleEndian);
      if u >= 0x8000 then u - 0x1_0000 else u
    case GetUint32 => Uint32At(d, i, littleEndian)
    case GetInt32 =>
      var u := Uint32At(d, i, littleEndian);
      if u >= 0x8000_0000 then u - 0x1_0000_0000 else u
  }

  /** Reference meaning of a getter: the base-256 value of the bytes in the given
      order, read as two's complement when the getter is signed. */
  function Decode(g: Getter, bs: seq<byte>, littleEndian: bool): int {
    var u := if littleEndian then FromLE(bs) else FromBE(bs);
    if Signed(g) then ToSigned(u, |bs|) else u
  }

  /** The values a getter can produce. */
  predicate InRange(g: Getter, v: int) {
    if Signed(g) then -(Pow256(Width(g)) / 2) <= v < Pow256(Width(g)) / 2
    else 0 <= v < Pow256(Width(g))
  }

  /** The bytes a getter reads back as v. */
  function Encode(g: Getter, v: int, littleEndian: bool): (bs: seq<byte>)
    requires InRange(g, v)
    ensures |bs| == Width(g)
  {
    SignedRoundTrip(0, v, Width(g));
    var u := if Signed(g) then FromSigned(v, Width(g)) else v;
    if littleEndian then ToLE(u, Width(g)) else ToBE(u, Width(g))
  }

  lemma Pow256Widths()
    ensures Pow256(1) == 0x100 && Pow256(2) == 0x1_0000 && Pow256(4) == 0x1_0000_0000
  {
  }

  lemma ValueOfTwoBytes(bs: seq<byte>)
    requires |bs| == 2
    ensures FromLE(bs) == bs[0] as int + 0x100 * bs[1] as int
    ensures FromBE(bs) == 0x100 * bs[0] as int + bs[1] as int
  {
    assert bs[1..][1..] == [] && FromLE(bs[1..]) == bs[1];
    assert bs[..1][..0] == [] && FromBE(bs[..1]) == bs[0];
  }

  lemma ValueOfFourBytes(bs: seq<byte>)
    requires |bs| == 4
    ensures FromLE(bs) == bs[0] as int + 0x100 * bs[1] as int + 0x1_0000 * bs[2] as int + 0x100_0000 * bs[3] as int
    ensures FromBE(bs) == 0x100_0000 * bs[0] as int + 0x1_0000 * bs[1] as int + 0x100 * bs[2] as int + bs[3] as int
  {
    ValueOfTwoBytes(bs[2..]);
    assert bs[1..][1..] == bs[2..];
    ValueOfTwoBytes(bs[..2]);
    assert bs[..3][..2] == bs[..2];
  }

  /** The byte arithmetic of the getters agrees with the reference meaning. */
  lemma GetValueIsDecode(g: Getter, d: seq<byte>, i: nat, littleEndian: bool)
    requires i + Width(g) <= |d|
    ensures GetValue(g, d, i, littleEndian) == Decode(g, d[i..i + Width(g)], littleEndian)
  {
    Pow256Widths();
    var bs := d[i..i + Width(g)];
    if Width(g) == 1 {
      assert bs[1..] == [] && bs[..0] == [];
      assert FromLE(bs) == FromBE(bs) == d[i];
    } else if Width(g) == 2 {
      ValueOfTwoBytes(bs);
    } else {
      ValueOfFourBytes(bs);
    }
  }

  /** Every decoded value lies in its getter's range. */
  lemma DecodeInRange(g: Getter, bs: seq<byte>, littleEndian: bool)
    requires |bs| == Width(g)
    ensures InRange(g, Decode(g, bs, littleEndian))
  {
    FromLEBound(bs);
    FromBEBound(bs);
    var u := if littleEndian then FromLE(bs) else FromBE(bs);
    SignedRoundTrip(u, 0, |bs|);
  }

  /** Decoding the encoding of an in-range value gives the value back. */
  lemma DecodeEncode(g: Getter, v: int, littleEndian: bool)
    requires InRange(g, v)
    ensures Decode(g, Encode(g, v, littleEndian), littleEndian) == v
  {
    var w := Width(g);
    SignedRoundTrip(0, v, w);
    var u := if Signed(g) then FromSigned(v, w) else v;
    if littleEndian { FromLEToLE(u, w); } else { FromBEToBE(u, w); }
    SignedRoundTrip(u, v, w);
  }

  /** Encoding a decoded value gives the bytes back: no two byte runs decode alike. */
  lemma EncodeDecode(g: Getter, bs: seq<byte>, littleEndian: bool)
    requires |bs| == Width(g)
    ensures InRange(g, Decode(g, bs, littleEndian))
    ensures Encode(g, Decode(g, bs, littleEndian), littleEndian) == bs
  {
    DecodeInRange(g, bs, littleEndian);
    FromLEBound(bs);
    FromBEBound(bs);
    var w := Width(g);
    var u := if littleEndian then FromLE(bs) else FromBE(bs);
    SignedRoundTrip(u, 0, w);
    if littleEndian { ToLEFromLE(bs); } else { ToBEFromBE(bs); }
  }

  /** The message of a read that runs past the end of the data. */
  function EndOfInputMessage(name: string): string {
    name + ": Unexpected end of input"
  }

  /** `needNBytes`: a failed state passes through untouched; a read of n bytes that
      would pass the end fails without moving the cursor or touching the result;
      otherwise the transformer runs. */
  function NeedNBytes(n: nat, name: string, transformerFn: ParserState --> ParserState, s: ParserState): (r: ParserState)
    requires !s.isError && CanReadBytes(s, n) ==> transformerFn.requires(s)
    ensures s.isError ==> r == s
    ensures !s.isError && !CanReadBytes(s, n) ==>
              r.isError && r.error == Some(EndOfInputMessage(name)) &&
              r.data == s.data && r.index == s.index && r.result == s.result
    ensures !s.isError && CanReadBytes(s, n) ==> r == transformerFn(s)
  {
    if s.isError then s
    else if !CanReadBytes(s, n) then UpdateError(s, EndOfInputMessage(name))
    else transformerFn(s)
  }

  /** `bufferRead`: a guarded read of one getter's bytes at the cursor. It succeeds
      exactly when the bytes are there, then holds their decoded value and has the
      cursor moved past them; a failure changes nothing but the error fields. */
  function BufferRead(name: string, g: Getter, littleEndian: bool, s: ParserState): (r: ParserState)
    ensures s.isError ==> r == s
    ensures r.data == s.data
    ensures !s.isError ==> (r.isError <==> s.index + Width(g) > |s.data|)
    ensures !s.isError && r.isError ==>
              r.error == Some(EndOfInputMessage(name)) && r.index == s.index && r.result == s.result
    ensures !r.isError ==>
              s.index + Width(g) <= |s.data| &&
              r.error == s.error && r.index == s.index + Width(g) &&
              r.result == Num(Decode(g, s.data[s.index..s.index + Width(g)], littleEndian))
  {
    var w := Width(g);
    var read := (t: ParserState) requires t.index + w <= |t.data| =>
      UpdateResultAndIndex(t, Num(GetValue(g, t.data, t.index, littleEndian)), t.index + w);
    if s.index + w <= |s.data| then
      GetValueIsDecode(g, s.data, s.index, littleEndian);
      NeedNBytes(w, name, read, s)
    else
      NeedNBytes(w, name, read, s)
  }

  /** The ten exported integer primitives. */
  datatype Primitive = U8 | S8 | U16LE | S16LE | U16BE | S16BE | U32LE | S32LE | U32BE | S32BE

  function Name(p: Primitive): string {
    match p
    case U8 => "u8"
    case S8 => "s8"
    case U16LE => "u16LE"
    case S16LE => "s16LE"
    case U16BE => "u16BE"
    case S16BE => "s16BE"
    case U32LE => "u32LE"
    case S32LE => "s32LE"
    case U32BE => "u32BE"
    case S32BE => "s32BE"
  }

  function GetterOf(p: Primitive): Getter {
    match p
    case U8 => GetUint8
    case S8 => GetInt8
    case U16LE | U16BE => GetUint16
    case S16LE | S16BE => GetInt16
    case U32LE | U32BE => GetUint32
    case S32LE | S32BE => GetInt32
  }

  /** The byte order each primitive passes to its getter (none for one byte). */
  predicate LittleEndian(p: Primitive) {
    p.U16LE? || p.S16LE? || p.U32LE? || p.S32LE?
  }

  function WidthOf(p: Primitive): nat {
    Width(GetterOf(p))
  }

  /** Run primitive p on state s. */
  function Read(p: Primitive, s: ParserState): ParserState {
    BufferRead(Name(p), GetterOf(p), LittleEndian(p), s)
  }

  /** The bytes primitive p reads at the cursor of s. */
  function BytesAt(p: Primitive, s: ParserState): seq<byte>
    requires s.index + WidthOf(p) <= |s.data|
  {
    s.data[s.index..s.index + WidthOf(p)]
  }

  /** A read with room for its bytes is the getter's value at the cursor. */
  lemma ReadGetsValue(p: Primitive, s: ParserState)
    requires !s.isError && s.index + WidthOf(p) <= |s.data|
    ensures Read(p, s) == s.(index := s.index + WidthOf(p),
                             result := Num(GetValue(GetterOf(p), s.data, s.index, LittleEndian(p))))
  {
    GetValueIsDecode(GetterOf(p), s.data, s.index, LittleEndian(p));
  }

  /** A read without room for its bytes fails with the primitive's name. */
  lemma ReadRunsOut(p: Primitive, s: ParserState)
    requires !s.isError && s.index + WidthOf(p) > |s.data|
    ensures Read(p, s) == UpdateError(s, EndOfInputMessage(Name(p)))
  {
  }

  /** A successful read yields a value in the primitive's range. */
  lemma ReadInRange(p: Primitive, s: ParserState)
    ensures !Read(p, s).isError ==>
              Read(p, s).result.Num? && InRange(GetterOf(p), Read(p, s).result.n)
  {
    if !Read(p, s).isError {
      DecodeInRange(GetterOf(p), BytesAt(p, s), LittleEndian(p));
    }
  }

  /** A primitive reads back any in-range value written at the cursor in its
      encoding, and moves exactly past it. */
  lemma ReadEncoded(p: Primitive, v: int, s: ParserState)
    requires !s.isError && InRange(GetterOf(p), v)
    requires s.index + WidthOf(p) <= |s.data|
    requires BytesAt(p, s) == Encode(GetterOf(p), v, LittleEndian(p))
    ensures !Read(p, s).isError
    ensures Read(p, s).result == Num(v) && Read(p, s).index == s.index + WidthOf(p)
  {
    var g, le := GetterOf(p), LittleEndian(p);
    DecodeEncode(g, v, le);
    var r := BufferRead(Name(p), g, le, s);
    assert r.result == Num(Decode(g, BytesAt(p, s), le));
  }

  /** A primitive keeps the cursor inside the data. */
  lemma ReadWellFormed(p: Primitive, s: ParserState)
    requires WellFormed(s)
    ensures WellFormed(Read(p, s))
  {
  }

  /** How a value is shown in a message. */
  function ValueText(v: Value): string {
    match v
    case Null => "null"
    case Num(n) => IntToDecimal(n)
    case Str(t) => t
  }

  /** `${name}: Expected ${expected} but got ${reality}`. */
  function MismatchMessage(name: string, expected: int, reality: Value): string {
    name + ": Expected " + IntToDecimal(expected) + " but got " + ValueText(reality)
  }

  /** `parseExact(name, expected)`: the parser to continue with once `reality` was
      decoded: keep it if it equals `expected`, otherwise fail naming both. */
  function ParseExact(name: string, expected: int, reality: Value): Parser {
    if reality == Num(expected) then (s => SucceedWith(reality, s))
    else (s => Fail(MismatchMessage(name, expected, reality), s))
  }

  /** `exactU8` … `exactS32BE`: primitive p chained into parseExact. A failed read
      is passed on as it is; otherwise the result is the decoded value, the cursor
      is past the bytes read whether or not the value matched, and the state
      fails exactly when the value is not the expected one. */
  function Exact(p: Primitive, expected: int, s: ParserState): (r: ParserState)
    ensures Read(p, s).isError ==> r == Read(p, s)
    ensures !Read(p, s).isError ==>
              r.data == s.data && r.index == s.index + WidthOf(p) &&
              r.result == Read(p, s).result &&
              (r.isError <==> Read(p, s).result != Num(expected)) &&
              r.error == if r.isError then Some(MismatchMessage(Name(p), expected, Read(p, s).result))
                         else s.error
  {
    Chain(t => Read(p, t), v => ParseExact(Name(p), expected, v), s)
  }

  /** An exact refinement succeeds if and only if the bytes at the cursor are
      there and decode to the expected value; it then consumes exactly them. */
  lemma ExactSucceedsIff(p: Primitive, expected: int, s: ParserState)
    ensures !Exact(p, expected, s).isError <==>
              !s.isError && s.index + WidthOf(p) <= |s.data| &&
              Decode(GetterOf(p), BytesAt(p, s), LittleEndian(p)) == expected
    ensures !Exact(p, expected, s).isError ==>
              Exact(p, expected, s).result == Num(expected) &&
              Exact(p, expected, s).index == s.index + WidthOf(p)
  {
  }

  /** On a mismatch both numbers can be read back out of the message. */
  lemma MismatchNamesBoth(name: string, expected: int, actual: int)
    ensures exists e: string, a: string ::
              MismatchMessage(name, expected, Num(actual)) == name + ": Expected " + e + " but got " + a &&
              IsNumeral(e) && IsNumeral(a) && ParseDecimal(e) == expected && ParseDecimal(a) == actual
  {
    IntToDecimalRoundTrip(expected);
    IntToDecimalRoundTrip(actual);
    var e, a := IntToDecimal(expected), IntToDecimal(actual);
    assert MismatchMessage(name, expected, Num(actual)) == name + ": Expected " + e + " but got " + a;
  }

  /** Every decoder leaves an already-failed state exactly as it found it. */
  lemma FailedStateIsFixed(p: Primitive, expected: int, s: ParserState)
    requires s.isError
    ensures Read(p, s) == s && Exact(p, expected, s) == s
  {
  }

  /** Exact refinements keep the cursor inside the data. */
  lemma ExactWellFormed(p: Primitive, expected: int, s: ParserState)
    requires WellFormed(s)
    ensures WellFormed(Exact(p, expected, s))
  {
  }
}
