# arcsecond-binary in Dafny

arcsecond-binary adds binary decoders to the arcsecond parser-combinator
library. A parse runs over a data view, which is a window of bytes. Every
parser takes a state `{dataView, index, isError, error, result}` and returns a
new one. This project models the library's core:

- The guarded read `needNBytes` and the state helpers (`canReadBytes`,
  `updateError`, `updateResultAndIndex`).
- `bufferRead` and the ten integer primitives: `u8`, `s8`, `u16LE`, `u16BE`,
  `s16LE`, `s16BE`, `u32LE`, `u32BE`, `s32LE` and `s32BE`.
- `parseExact` and the ten `exact*` refinements.
- The `nullTerminatedString` coroutine.

Layout:

- `state.dfy` (`ParserStates`): the state as a datatype. The data view becomes
  the byte sequence it views. Every state update is a datatype copy-update,
  just as the source copies the state with `{...state}`.
- `engine.dfy` (`Engine`): the few arcsecond operators the core calls. These
  are `succeedWith`, `fail`, `chain`, `errorMap`, `peek` and `anyChar`.
- `integers.dfy` (`Integers`): the reference meaning of a byte run.
  - Little- and big-endian base-256 values.
  - Two's complement.
  - The encoders that invert them.
- `decimal.dfy` (`Decimal`): how a template literal shows a whole number. This
  includes the parse back that proves the rendering loses nothing.
- `binary.dfy` (`BinaryParsers`): `needNBytes`, `bufferRead`, the primitives
  (one `Primitive` datatype with name, getter and byte-order tables),
  `parseExact` and the exact refinements.
  - The `DataView` getters are written out as byte arithmetic (`GetValue`).
  - `GetValue` is proved equal to the reference meaning.
- `null_terminated.dfy` (`NullTerminated`): the coroutine's `while (true)`
  loop as a method, proved equal to a one-step closed form. The lemmas about
  its cases are stated against that closed form.
- `vectors.dfy` (`TestVectors`): each case of the repository's test suite,
  stated as a fact about the model. A test that runs parsers in sequence
  (`sequenceOf`) is the state threaded through them.

Some behaviour follows from the engine's semantics:

- arcsecond's `errorMap` replaces the error of every failed state its parser
  returns, including a failed state that was only passed through.
- The coroutine runs its first step even on a failed input.
- So `nullTerminatedString` applied to an already-failed state keeps its cursor
  and result, but its error is replaced by
  `nullTerminatedString: Unexpected end of input`.
- The model states this in `NullTerminatedSpec`.

## Model

| member | source | states |
|---|---|---|
| Integers.FromLEBound | src/index.js:26-35 | A little-endian value of k bytes is below 256^k. |
| Integers.FromBEBound | src/index.js:26-35 | A big-endian value of k bytes is below 256^k. |
| Integers.FromLEToLE | src/index.js:26-35 | Encoding a value little-endian and decoding it gives the value back. |
| Integers.FromBEToBE | src/index.js:26-35 | Encoding a value big-endian and decoding it gives the value back. |
| Integers.ToLEFromLE | src/index.js:26-35 | Decoding bytes little-endian and re-encoding them gives the bytes back. |
| Integers.ToBEFromBE | src/index.js:26-35 | Decoding bytes big-endian and re-encoding them gives the bytes back. |
| Integers.SignedRoundTrip | src/index.js:26-35 | Two's complement reading and writing are inverse on their ranges. |
| Decimal.NatToDecimal | src/index.js:19 | A natural number renders as at least one decimal digit, with no leading zero. |
| Decimal.IntToDecimal | src/index.js:19 | A whole number renders as a numeral that starts with a minus sign exactly when the number is negative. |
| Decimal.NatToDecimalRoundTrip | src/index.js:19 | The digits of a natural number read back as that number. |
| Decimal.IntToDecimalRoundTrip | src/index.js:19 | A rendered whole number reads back as itself, so distinct numbers give distinct texts. |
| BinaryParsers.NeedNBytes | src/index.js:5-13 | A failed state is returned as it is. When `canReadBytes` says the n bytes are not there, `updateError` marks the state failed with `<name>: Unexpected end of input` and changes nothing else. Otherwise the transformer's state is returned. |
| BinaryParsers.BufferRead | src/index.js:22-24 | The read fails exactly when the getter's bytes are not all there, and the failure changes only the error fields. A success (`updateResultAndIndex`) moves the cursor by the width, holds the bytes' decoded value and leaves the error fields alone. |
| BinaryParsers.GetValueIsDecode | src/index.js:26-35 | The getters' byte arithmetic equals the base-256 value of the bytes in the given order, read as two's complement for a signed getter. |
| BinaryParsers.Encode | src/index.js:26-35 | An in-range value encodes to exactly as many bytes as its getter reads. |
| BinaryParsers.DecodeInRange | src/index.js:26-35 | Every decoded value lies in its getter's range: [0, 256^w) unsigned, [-256^w/2, 256^w/2) signed. |
| BinaryParsers.DecodeEncode | src/index.js:26-35 | Decoding an encoded in-range value gives it back. |
| BinaryParsers.EncodeDecode | src/index.js:26-35 | Encoding a decoded value gives the bytes back, so distinct byte runs decode to distinct values. |
| BinaryParsers.ReadGetsValue | src/index.js:26-35 | A primitive with room moves the cursor by its width and holds the getter's value; nothing else changes. |
| BinaryParsers.ReadRunsOut | src/index.js:11 | A primitive without room fails with its own name and the end-of-input message; nothing else changes. |
| BinaryParsers.ReadInRange | src/index.js:26-35 | A successful primitive yields a number in its getter's range. |
| BinaryParsers.ReadEncoded | src/index.js:26-35 | A primitive reads back any in-range value written at the cursor in its encoding, and moves past exactly those bytes. |
| BinaryParsers.ReadWellFormed | src/index.js:9-13 | A primitive never moves the cursor past the end of the data. |
| BinaryParsers.Exact | src/index.js:37-46 | A failed read is passed on unchanged. Otherwise the cursor is past the bytes and the result is the decoded value, whether or not it matched. The state fails exactly on a mismatch, with `<name>: Expected <e> but got <a>`. |
| BinaryParsers.ExactSucceedsIff | src/index.js:15-18 | An exact refinement succeeds if and only if the bytes are there and decode to the expected value. It then holds that value and has consumed exactly those bytes. |
| BinaryParsers.MismatchNamesBoth | src/index.js:19 | The mismatch message is the parser name, the expected value and the actual value, and both numbers read back exactly. |
| BinaryParsers.FailedStateIsFixed | src/index.js:10 | Primitives and exact refinements leave an already-failed state exactly as it was. |
| BinaryParsers.ExactWellFormed | src/index.js:37-46 | An exact refinement never moves the cursor past the end of the data. |
| NullTerminated.FirstZeroFrom | src/index.js:52-57 | The first zero byte at or after an offset: it is zero, and every byte before it is non-zero. None means no zero byte follows. |
| NullTerminated.PeekStep | src/index.js:53 | The relabelled peek fails on a failed state or at the end of the data; otherwise it yields the byte under the cursor. |
| NullTerminated.CharStep | src/index.js:58 | The relabelled `anyChar` consumes one byte as one character. |
| NullTerminated.TerminatorStep | src/index.js:54-56 | The terminator is consumed by `u8`, which cannot fail there. |
| NullTerminated.NullTerminatedString | src/index.js:48-67 | The loop's outcome equals the closed form `NullTerminatedSpec`. The loop always terminates. |
| NullTerminated.ReadsUpToTerminator | src/index.js:48-67 | Non-zero bytes followed by a zero byte read as those characters. The cursor ends just past the zero byte and the error is unchanged. |
| NullTerminated.TruncatedFails | src/index.js:50-53 | Without a zero byte ahead, the parse fails with `nullTerminatedString: Unexpected end of input`. The cursor ends at the end of the data. |
| NullTerminated.EmptyStringFails | src/index.js:62-64 | A zero byte at the cursor is consumed. The parse then fails with `nullTerminatedString: No data before null terminator`. |
| NullTerminated.SucceedsIff | src/index.js:48-67 | Success happens exactly when a zero byte follows at least one non-zero byte. The text then has no zero character and the cursor moved one byte more than the text is long. |
| NullTerminated.NullTerminatedWellFormed | src/index.js:48-67 | The parse never moves the cursor past the end of the data. |
| TestVectors.U8Vector | index.test.js:30-34 | Four `u8` reads of 01 02 ff fe give 1, 2, 255, 254. |
| TestVectors.U8TruncationVector | index.test.js:36-40 | `u8` on no bytes fails, with the end-of-input message under the name `u8`. |
| TestVectors.S8Vector | index.test.js:42-46 | Four `s8` reads give 1, 2, -1, -2. |
| TestVectors.U16LEVector | index.test.js:48-52 | Two `u16LE` reads give 0x0201, 0xfeff. |
| TestVectors.U16LETruncationVector | index.test.js:54-58 | `u16LE` on one byte fails, with the end-of-input message under the name `u16LE`. |
| TestVectors.U16BEVector | index.test.js:60-64 | Two `u16BE` reads give 0x0102, 0xfffe. |
| TestVectors.S16LEVector | index.test.js:66-70 | Two `s16LE` reads give 0x0201, -257. |
| TestVectors.S16BEVector | index.test.js:72-76 | Two `s16BE` reads give 0x0102, -2. |
| TestVectors.U32LEVector | index.test.js:78-82 | `u32LE` gives 0xfeff0201. |
| TestVectors.U32LETruncationVector | index.test.js:84-88 | `u32LE` on three bytes fails, with the end-of-input message under the name `u32LE`. |
| TestVectors.EndOfInputText | index.test.js:56 | The end-of-input message under the name `u16LE` reads `u16LE: Unexpected end of input`. |
| TestVectors.U32BEVector | index.test.js:90-94 | `u32BE` gives 0x0102fffe. |
| TestVectors.S32LEVector | index.test.js:96-100 | `s32LE` gives -16842239. |
| TestVectors.S32BEVector | index.test.js:102-106 | `s32BE` gives 0x0102fffe. |
| TestVectors.HelloVector | index.test.js:108-112 | 68 65 6c 6c 6f 00 reads as "hello". |
| TestVectors.EdgeStringVectors | src/index.js:50-64 | A lone zero byte fails as an empty string. A lone non-zero byte fails as running out of input. |
| TestVectors.ExactU8MatchVector | index.test.js:116-120 | `exactU8(1)` on 01 succeeds with 1. |
| TestVectors.ExactU8MismatchVector | index.test.js:122-126 | `exactU8(2)` on 01 fails with the mismatch message for `u8`, expected 2 and actual 1. |
| TestVectors.MismatchText | index.test.js:124 | That mismatch message reads `u8: Expected 2 but got 1`. |
| TestVectors.ExactS8Vector | index.test.js:128-132 | `exactS8(-1)` on ff succeeds with -1. |
| TestVectors.ExactU16LEVector | index.test.js:134-141 | `exactU16LE(0x0201)` succeeds with 0x0201, then `exactU16LE(0xfeff)` succeeds with 0xfeff. |
| TestVectors.ExactU16BEVector | index.test.js:143-150 | `exactU16BE(0x0102)` succeeds with 0x0102, then `exactU16BE(0xfffe)` succeeds with 0xfffe. |
| TestVectors.ExactS16LEVector | index.test.js:152-159 | `exactS16LE(0x0201)` succeeds with 0x0201, then `exactS16LE(-257)` succeeds with -257. |
| TestVectors.ExactS16BEVector | index.test.js:161-168 | `exactS16BE(0x0102)` succeeds with 0x0102, then `exactS16BE(-2)` succeeds with -2. |
| TestVectors.ExactU32LEVector | index.test.js:170-174 | `exactU32LE(0xfeff0201)` succeeds. |
| TestVectors.ExactU32BEVector | index.test.js:176-180 | `exactU32BE(0x0102fffe)` succeeds. |
| TestVectors.ExactS32LEVector | index.test.js:182-186 | `exactS32LE(-16842239)` succeeds. |
| TestVectors.ExactS32BEVector | index.test.js:188-192 | `exactS32BE(0x0102fffe)` succeeds. |

## Left out

- The arcsecond engine is modelled only where the core calls it:
  - `succeedWith`, `fail`, `chain`, `errorMap`, `peek` and `anyChar`. These
    are definitions the decoders are built from. Their behaviour is stated
    through the decoders' contracts (`NeedNBytes`, `BufferRead`, `Exact`,
    `PeekStep`, `CharStep`, `TerminatorStep`), not on their own.
  - The coroutine's step semantics.
  - `Parser`, `run`, `sequenceOf` and the rest of the library are not part of
    this model.
  - The vectors thread the state through successive parsers in place of
    `sequenceOf`, and look only at the final result.
- `Engine.Peek` and `Engine.AnyChar` carry placeholder messages for their own
  failures. arcsecond's exact wording is not part of this model. The core
  always relabels those failures with `errorMap`, so the wording never shows.
- `Engine.AnyChar` reads one byte as one character. arcsecond decodes UTF-8, so
  a non-ASCII byte sequence may form one multi-byte character there.
  - This is accurate for ASCII text, including the test vector.
  - It is not accurate for multi-byte characters.
- `BinaryParsers.ParseExact` takes the expected value as a whole number.
  - In JavaScript it may be any value. A non-number never equals a decoded
    number and fails.
  - Numbers are shown as decimal integers. Exponent notation for magnitudes of
    10^21 and above, fractions and `-0` are not modelled.
  - The mismatch message for a decoded number is exact.
- `BinaryParsers.NeedNBytes` models the data view as a whole sequence. A
  `DataView` with a non-zero byte offset into a larger buffer is not modelled
  separately.
  - `canReadBytes`'s `offset` parameter is kept in `ParserStates.CanReadBytes`.
    The core always calls it with the default of 0.
- The type declarations (`src/index.d.ts`) and the module export list are not
  part of this model.
