/** The cursor state every decoder consumes and produces.

    The source keeps `{dataView, index, isError, error, result}` and builds each new
    state by copying the old one with a few fields replaced; a Dafny datatype update
    `s.(field := v)` is that copy. The data view becomes the byte sequence it views.
 */
module ParserStates {

  /** One byte of the data view. */
  type byte = b: int | 0 <= b < 256

  datatype Option<+T> = None | Some(value: T)

  /** What a parser leaves in `result`: nothing yet, a decoded number or a string. */
  datatype Value = Null | Num(n: int) | Str(s: string)

  datatype ParserState = ParserState(
    data: seq<byte>,
    index: nat,
    isError: bool,
    error: Option<string>,
    result: Value)

  /** The state a parse starts from: offset 0, no error, no result. */
  function InitialState(data: seq<byte>): ParserState {
    ParserState(data, 0, false, None, Null)
  }

  /** The cursor never passes the end of the data. */
  predicate WellFormed(s: ParserState) {
    s.index <= |s.data|
  }

  /** `canReadBytes`: n bytes (after skipping `offset` more) still lie inside the data. */
  predicate CanReadBytes(s: ParserState, n: nat, offset: nat := 0) {
    s.index + n + offset <= |s.data|
  }

  /** `updateError`: the same state, marked failed with the given message. */
  function UpdateError(s: ParserState, error: string): ParserState {
    s.(isError := true, error := Some(error))
  }

  /** `updateResultAndIndex`: the same state with a new result and cursor. */
  function UpdateResultAndIndex(s: ParserState, result: Value, index: nat): ParserState {
    s.(result := result, index := index)
  }
}
