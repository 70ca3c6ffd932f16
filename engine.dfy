/** The few operators of the external combinator engine that the decoders rely on.

    Only the behaviour the call sites depend on is modelled: a failure keeps the
    cursor and the result, `chain` stops at the first failure, `peek` reads without
    consuming, and `errorMap` relabels whatever failure comes out of its parser.
 */
module Engine {
  import opened ParserStates

  /** A parser is a transition from one state to the next. */
  type Parser = ParserState -> ParserState

  /** `A.succeedWith(x)`: replace the result and leave the cursor where it is. */
  function SucceedWith(x: Value, s: ParserState): ParserState {
    s.(result := x)
  }

  /** `A.fail(message)`: a failed state is passed on as it is; otherwise the state
      fails with `message`, its cursor and result untouched. */
  function Fail(message: string, s: ParserState): ParserState {
    if s.isError then s else UpdateError(s, message)
  }

  /** `p.chain(f)`: run `p`; on success run the parser `f` builds from its result. */
  function Chain(p: Parser, f: Value -> Parser, s: ParserState): ParserState {
    var t := p(s);
    if t.isError then t else f(t.result)(t)
  }

  /** `p.errorMap(() => message)`: every failure `p` returns carries `message` instead. */
  function ErrorMap(p: Parser, message: string, s: ParserState): ParserState {
    var t := p(s);
    if t.isError then UpdateError(t, message) else t
  }

  /** `A.peek`: the byte at the cursor, without consuming it. */
  function Peek(s: ParserState): ParserState {
    if s.isError then s
    else if s.index < |s.data| then s.(result := Num(s.data[s.index]))
    else UpdateError(s, "peek: Unexpected end of input")
  }

  /** `A.anyChar`, one byte per character: consume the byte at the cursor as a
      one-character string. */
  function AnyChar(s: ParserState): ParserState {
    if s.isError then s
    else if s.index < |s.data| then s.(index := s.index + 1, result := Str([s.data[s.index] as char]))
    else UpdateError(s, "anyChar: Unexpected end of input")
  }
}
