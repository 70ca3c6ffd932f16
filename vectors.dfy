/** The input/expected pairs of the repository's test suite, as facts about the
    model. A test that runs several parsers in sequence is the state threaded
    through them one after another. */
module TestVectors {
  import opened ParserStates
  import opened BinaryParsers
  import opened NullTerminated
  import opened Decimal

  /** The four bytes most tests decode. */
  const Sample: seq<byte> := [0x01, 0x02, 0xff, 0xfe]

  /** The results of running a primitive twice from the start of the data. */
  function TwoReads(p: Primitive, data: seq<byte>): seq<Value> {
    var first := Read(p, InitialState(data));
    [first.result, Read(p, first).result]
  }

  /** The results of running a primitive four times from the start of the data. */
  function FourReads(p: Primitive, data: seq<byte>): seq<Value> {
    var s1 := Read(p, InitialState(data));
    var s2 := Read(p, s1);
    var s3 := Read(p, s2);
    [s1.result, s2.result, s3.result, Read(p, s3).result]
  }

  /** The values of two successive reads of a two-byte primitive over Sample. */
  lemma TwoReadsOfSample(p: Primitive)
    requires WidthOf(p) == 2
    ensures TwoReads(p, Sample) ==
              [Num(GetValue(GetterOf(p), Sample, 0, LittleEndian(p))),
               Num(GetValue(GetterOf(p), Sample, 2, LittleEndian(p)))]
  {
    var s0 := InitialState(Sample);
    ReadGetsValue(p, s0);
    ReadGetsValue(p, Read(p, s0));
  }

  /** The values of four successive reads of a one-byte primitive over Sample. */
  lemma FourReadsOfSample(p: Primitive)
    requires WidthOf(p) == 1
    ensures FourReads(p, Sample) ==
              [Num(GetValue(GetterOf(p), Sample, 0, false)), Num(GetValue(GetterOf(p), Sample, 1, false)),
               Num(GetValue(GetterOf(p), Sample, 2, false)), Num(GetValue(GetterOf(p), Sample, 3, false))]
  {
    var s0 := InitialState(Sample);
    ReadGetsValue(p, s0);
    var s1 := Read(p, s0);
    ReadGetsValue(p, s1);
    var s2 := Read(p, s1);
    ReadGetsValue(p, s2);
    ReadGetsValue(p, Read(p, s2));
  }

  lemma U8Vector()
    ensures FourReads(U8, Sample) == [Num(1), Num(2), Num(255), Num(254)]
  {
    FourReadsOfSample(U8);
  }

  lemma S8Vector()
    ensures FourReads(S8, Sample) == [Num(1), Num(2), Num(-1), Num(-2)]
  {
    FourReadsOfSample(S8);
  }

  lemma U16LEVector()
    ensures TwoReads(U16LE, Sample) == [Num(0x0201), Num(0xfeff)]
  {
    TwoReadsOfSample(U16LE);
  }

  lemma U16BEVector()
    ensures TwoReads(U16BE, Sample) == [Num(0x0102), Num(0xfffe)]
  {
    TwoReadsOfSample(U16BE);
  }

  lemma S16LEVector()
    ensures TwoReads(S16LE, Sample) == [Num(0x0201), Num(-257)]
  {
    TwoReadsOfSample(S16LE);
  }

  lemma S16BEVector()
    ensures TwoReads(S16BE, Sample) == [Num(0x0102), Num(-2)]
  {
    TwoReadsOfSample(S16BE);
  }

  lemma U32LEVector()
    ensures Read(U32LE, InitialState(Sample)).result == Num(0xfeff0201)
  {
    ReadGetsValue(U32LE, InitialState(Sample));
  }

  lemma U32BEVector()
    ensures Read(U32BE, InitialState(Sample)).result == Num(0x0102fffe)
  {
    ReadGetsValue(U32BE, InitialState(Sample));
  }

  lemma S32LEVector()
    ensures Read(S32LE, InitialState(Sample)).result == Num(-16842239)
  {
    ReadGetsValue(S32LE, InitialState(Sample));
  }

  lemma S32BEVector()
    ensures Read(S32BE, InitialState(Sample)).result == Num(0x0102fffe)
  {
    ReadGetsValue(S32BE, InitialState(Sample));
  }

  /** A primitive run on fewer bytes than it reads reports running out of input
      under its own name. */
  lemma TooShort(p: Primitive, data: seq<byte>)
    requires |data| < WidthOf(p)
    ensures Read(p, InitialState(data)).isError
    ensures Read(p, InitialState(data)).error == Some(EndOfInputMessage(Name(p)))
  {
    ReadRunsOut(p, InitialState(data));
  }

  lemma U8TruncationVector()
    ensures Read(U8, InitialState([])).isError
    ensures Read(U8, InitialState([])).error == Some(EndOfInputMessage("u8"))
  {
    TooShort(U8, []);
  }

  lemma U16LETruncationVector()
    ensures Read(U16LE, InitialState([0x01])).isError
    ensures Read(U16LE, InitialState([0x01])).error == Some(EndOfInputMessage("u16LE"))
  {
    TooShort(U16LE, [0x01]);
  }

  lemma U32LETruncationVector()
    ensures Read(U32LE, InitialState([0x01, 0x02, 0x03])).isError
    ensures Read(U32LE, InitialState([0x01, 0x02, 0x03])).error == Some(EndOfInputMessage("u32LE"))
  {
    TooShort(U32LE, [0x01, 0x02, 0x03]);
  }

  /** The end-of-input message the truncation tests expect. */
  lemma EndOfInputText()
    ensures EndOfInputMessage("u16LE") == "u16LE: Unexpected end of input"
  {
  }

  lemma HelloVector()
    ensures !NullTerminatedSpec(InitialState([0x68, 0x65, 0x6c, 0x6c, 0x6f, 0x00])).isError
    ensures NullTerminatedSpec(InitialState([0x68, 0x65, 0x6c, 0x6c, 0x6f, 0x00])).result == Str("hello")
    ensures NullTerminatedSpec(InitialState([0x68, 0x65, 0x6c, 0x6c, 0x6f, 0x00])).index == 6
  {
    var s := InitialState([0x68, 0x65, 0x6c, 0x6c, 0x6f, 0x00]);
    ReadsUpToTerminator(s, 5);
    assert Latin1(s.data[0..5]) == "hello";
  }

  lemma EdgeStringVectors()
    ensures NullTerminatedSpec(InitialState([0x00])).error == Some("nullTerminatedString: No data before null terminator")
    ensures NullTerminatedSpec(InitialState([0x68])).error == Some("nullTerminatedString: Unexpected end of input")
  {
    EmptyStringFails(InitialState([0x00]));
    TruncatedFails(InitialState([0x68]));
    assert EndOfInput == "nullTerminatedString: Unexpected end of input" by {
      assert EndOfInput == EndOfInputMessage("nullTerminatedString");
    }
  }

  lemma ExactU8MatchVector()
    ensures Exact(U8, 0x01, InitialState([0x01])).result == Num(1)
    ensures !Exact(U8, 0x01, InitialState([0x01])).isError
  {
    ReadGetsValue(U8, InitialState([0x01]));
  }

  lemma ExactU8MismatchVector()
    ensures Exact(U8, 0x02, InitialState([0x01])).isError
    ensures Exact(U8, 0x02, InitialState([0x01])).error == Some(MismatchMessage("u8", 2, Num(1)))
  {
    ReadGetsValue(U8, InitialState([0x01]));
  }

  /** The mismatch message the failing exactU8 test expects. */
  lemma MismatchText()
    ensures MismatchMessage("u8", 2, Num(1)) == "u8: Expected 2 but got 1"
  {
    assert IntToDecimal(2) == "2" && IntToDecimal(1) == "1";
  }

  lemma ExactS8Vector()
    ensures Exact(S8, -1, InitialState([0xff])).result == Num(-1)
    ensures !Exact(S8, -1, InitialState([0xff])).isError
  {
    ReadGetsValue(S8, InitialState([0xff]));
  }

  /** Two successive exact reads of a two-byte primitive over Sample succeed with
      the values the plain reads give. */
  lemma ExactTwiceOfSample(p: Primitive, first: int, second: int)
    requires WidthOf(p) == 2
    requires first == GetValue(GetterOf(p), Sample, 0, LittleEndian(p))
    requires second == GetValue(GetterOf(p), Sample, 2, LittleEndian(p))
    ensures !Exact(p, first, InitialState(Sample)).isError
    ensures Exact(p, first, InitialState(Sample)).result == Num(first)
    ensures !Exact(p, second, Exact(p, first, InitialState(Sample))).isError
    ensures Exact(p, second, Exact(p, first, InitialState(Sample))).result == Num(second)
  {
    var s0 := InitialState(Sample);
    ReadGetsValue(p, s0);
    ReadGetsValue(p, Exact(p, first, s0));
  }

  lemma ExactU16LEVector()
    ensures !Exact(U16LE, 0x0201, InitialState(Sample)).isError
    ensures Exact(U16LE, 0x0201, InitialState(Sample)).result == Num(0x0201)
    ensures !Exact(U16LE, 0xfeff, Exact(U16LE, 0x0201, InitialState(Sample))).isError
    ensures Exact(U16LE, 0xfeff, Exact(U16LE, 0x0201, InitialState(Sample))).result == Num(0xfeff)
  {
    ExactTwiceOfSample(U16LE, 0x0201, 0xfeff);
  }

  lemma ExactU16BEVector()
    ensures !Exact(U16BE, 0x0102, InitialState(Sample)).isError
    ensures Exact(U16BE, 0x0102, InitialState(Sample)).result == Num(0x0102)
    ensures !Exact(U16BE, 0xfffe, Exact(U16BE, 0x0102, InitialState(Sample))).isError
    ensures Exact(U16BE, 0xfffe, Exact(U16BE, 0x0102, InitialState(Sample))).result == Num(0xfffe)
  {
    ExactTwiceOfSample(U16BE, 0x0102, 0xfffe);
  }

  lemma ExactS16LEVector()
    ensures !Exact(S16LE, 0x0201, InitialState(Sample)).isError
    ensures Exact(S16LE, 0x0201, InitialState(Sample)).result == Num(0x0201)
    ensures !Exact(S16LE, -257, Exact(S16LE, 0x0201, InitialState(Sample))).isError
    ensures Exact(S16LE, -257, Exact(S16LE, 0x0201, InitialState(Sample))).result == Num(-257)
  {
    ExactTwiceOfSample(S16LE, 0x0201, -257);
  }

  lemma ExactS16BEVector()
    ensures !Exact(S16BE, 0x0102, InitialState(Sample)).isError
    ensures Exact(S16BE, 0x0102, InitialState(Sample)).result == Num(0x0102)
    ensures !Exact(S16BE, -2, Exact(S16BE, 0x0102, InitialState(Sample))).isError
    ensures Exact(S16BE, -2, Exact(S16BE, 0x0102, InitialState(Sample))).result == Num(-2)
  {
    ExactTwiceOfSample(S16BE, 0x0102, -2);
  }

  /** An exact read of a four-byte primitive over Sample succeeds with the value
      the plain read gives. */
  lemma ExactOnceOfSample(p: Primitive, expected: int)
    requires WidthOf(p) == 4
    requires expected == GetValue(GetterOf(p), Sample, 0, LittleEndian(p))
    ensures !Exact(p, expected, InitialState(Sample)).isError
  {
    ReadGetsValue(p, InitialState(Sample));
  }

  lemma ExactU32LEVector()
    ensures !Exact(U32LE, 0xfeff0201, InitialState(Sample)).isError
  {
    ExactOnceOfSample(U32LE, 0xfeff0201);
  }

  lemma ExactU32BEVector()
    ensures !Exact(U32BE, 0x0102fffe, InitialState(Sample)).isError
  {
    ExactOnceOfSample(U32BE, 0x0102fffe);
  }

  lemma ExactS32LEVector()
    ensures !Exact(S32LE, -16842239, InitialState(Sample)).isError
  {
    ExactOnceOfSample(S32LE, -16842239);
  }

  lemma ExactS32BEVector()
    ensures !Exact(S32BE, 0x0102fffe, InitialState(Sample)).isError
  {
    ExactOnceOfSample(S32BE, 0x0102fffe);
  }
}
