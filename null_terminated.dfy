/** `nullTerminatedString`: the bytes up to the first zero byte, as text. */
module NullTerminated {
  import opened ParserStates
  import opened Engine
  import opened BinaryParsers

  const EndOfInput: string := EndOfInputMessage("nullTerminatedString")
  const NoData: string := "nullTerminatedString: No data before null terminator"

  /** The offset of the first zero byte at or after i, if there is one. */
  function FirstZeroFrom(d: seq<byte>, i: nat): (r: Option<nat>)
    ensures r.Some? ==> i <= r.value < |d| && d[r.value] == 0
    ensures r.Some? ==> forall k :: i <= k < r.value ==> d[k] != 0
    ensures r.None? ==> forall k :: i <= k < |d| ==> d[k] != 0
    decreases |d| - i
  {
    if i >= |d| then None
    else if d[i] == 0 then Some(i)
    else FirstZeroFrom(d, i + 1)
  }

  lemma FirstZeroAt(d: seq<byte>, i: nat, j: nat)
    requires i <= j < |d| && d[j] == 0
    requires forall k :: i <= k < j ==> d[k] != 0
    ensures FirstZeroFrom(d, i) == Some(j)
  {
  }

  lemma NoZeroFrom(d: seq<byte>, i: nat)
    requires forall k :: i <= k < |d| ==> d[k] != 0
    ensures FirstZeroFrom(d, i) == None
  {
  }

  /** One look at the byte under the cursor, failures relabelled. */
  lemma PeekStep(t: ParserState)
    ensures ErrorMap(Peek, EndOfInput, t) ==
              if t.isError || t.index >= |t.data| then t.(isError := true, error := Some(EndOfInput))
              else t.(result := Num(t.data[t.index]))
  {
  }

  /** Consuming a non-terminator byte as one character. */
  lemma CharStep(t: ParserState)
    requires !t.isError && t.index < |t.data|
    ensures ErrorMap(AnyChar, EndOfInput, t) == t.(index := t.index + 1, result := Str([t.data[t.index] as char]))
  {
  }

  /** Consuming the terminator with a one-byte read. */
  lemma TerminatorStep(t: ParserState)
    requires !t.isError && t.index < |t.data| && t.data[t.index] == 0
    ensures Read(U8, t) == t.(index := t.index + 1, result := Num(0))
  {
    assert t.data[t.index..t.index + 1][..0] == [];
  }

  /** Bytes as text, one character per byte. */
  function Latin1(bs: seq<byte>): string {
    seq(|bs|, k requires 0 <= k < |bs| => bs[k] as char)
  }

  /** Where a state ends up after scanning every byte from its cursor without
      meeting a zero byte. */
  function ScannedToEnd(s: ParserState): ParserState {
    if s.index < |s.data| then s.(index := |s.data|, result := Str([s.data[|s.data| - 1] as char]))
    else s
  }

  /** The outcome of `nullTerminatedString`, stated in one step. A failed input
      keeps its cursor and result but is relabelled as running out of input.
      Otherwise, with the first zero byte at offset j: when j is past the cursor,
      success with the bytes before it as text and the cursor past the zero; when
      j is the cursor, failure for an empty string with the cursor past the zero;
      with no zero byte, failure for running out of input with the cursor at the
      end of the data. */
  function NullTerminatedSpec(s: ParserState): ParserState {
    if s.isError then s.(error := Some(EndOfInput))
    else match FirstZeroFrom(s.data, s.index)
      case None => UpdateError(ScannedToEnd(s), EndOfInput)
      case Some(j) =>
        if j == s.index then UpdateError(s.(index := j + 1, result := Num(0)), NoData)
        else s.(index := j + 1, result := Str(Latin1(s.data[s.index..j])))
  }

  /** Characters collected one per byte spell the bytes as text. */
  lemma CollectedText(out: string, d: seq<byte>, i: nat, j: nat)
    requires i <= j <= |d| && |out| == j - i
    requires forall k :: 0 <= k < |out| ==> out[k] == d[i + k] as char
    ensures out == Latin1(d[i..j])
  {
  }

  /** The outcome when no zero byte follows the cursor. */
  lemma SpecWithoutZero(s: ParserState)
    requires !s.isError && forall j :: s.index <= j < |s.data| ==> s.data[j] != 0
    ensures NullTerminatedSpec(s) == UpdateError(ScannedToEnd(s), EndOfInput)
  {
    NoZeroFrom(s.data, s.index);
  }

  /** The outcome when the first zero byte from the cursor is at offset j. */
  lemma SpecWithZeroAt(s: ParserState, j: nat)
    requires !s.isError && s.index <= j < |s.data| && s.data[j] == 0
    requires forall k :: s.index <= k < j ==> s.data[k] != 0
    ensures NullTerminatedSpec(s) ==
              if j == s.index then UpdateError(s.(index := j + 1, result := Num(0)), NoData)
              else s.(index := j + 1, result := Str(Latin1(s.data[s.index..j])))
  {
    FirstZeroAt(s.data, s.index, j);
  }

  /** What holds after scanning from s to st and collecting out: the state
      differs from s only in cursor and result (and not even in those if s has
      failed), every byte passed is non-zero and
      was collected as one character, and the result is the last character
      collected (or s's own result if nothing was). */
  ghost predicate Scanned(s: ParserState, st: ParserState, out: string) {
    st.data == s.data && st.isError == s.isError && st.error == s.error &&
    (st.isError ==> st.index == s.index) &&
    s.index <= st.index && (st.index == s.index || st.index <= |s.data|) &&
    |out| == st.index - s.index &&
    (forall j :: s.index <= j < st.index ==> s.data[j] != 0) &&
    (forall k :: 0 <= k < |out| ==> out[k] == s.data[s.index + k] as char) &&
    (st.index == s.index ==> st.result == s.result) &&
    (st.index != s.index ==> st.result == Str([s.data[st.index - 1] as char]))
  }

  lemma ScanStart(s: ParserState)
    ensures Scanned(s, s, "")
  {
  }

  /** A failed peek ends the parse with the specified outcome. */
  lemma ScanPeekFails(s: ParserState, st: ParserState, out: string)
    requires Scanned(s, st, out) && ErrorMap(Peek, EndOfInput, st).isError
    ensures ErrorMap(Peek, EndOfInput, st) == NullTerminatedSpec(s)
  {
    PeekStep(st);
    if !s.isError {
      SpecWithoutZero(s);
      assert st == ScannedToEnd(s);
    } else {
      assert st == s;
    }
  }

  /** A non-zero byte under the cursor is collected and the scan goes on. */
  lemma ScanChar(s: ParserState, st: ParserState, out: string)
    requires Scanned(s, st, out)
    requires !ErrorMap(Peek, EndOfInput, st).isError && ErrorMap(Peek, EndOfInput, st).result != Num(0)
    ensures ErrorMap(AnyChar, EndOfInput, ErrorMap(Peek, EndOfInput, st)).index == st.index + 1 <= |st.data|
    ensures ErrorMap(AnyChar, EndOfInput, ErrorMap(Peek, EndOfInput, st)).result.Str?
    ensures var t := ErrorMap(AnyChar, EndOfInput, ErrorMap(Peek, EndOfInput, st));
            Scanned(s, t, out + t.result.s)
  {
    PeekStep(st);
    var peeked := ErrorMap(Peek, EndOfInput, st);
    CharStep(peeked);
  }

  /** A zero byte under the cursor is consumed and ends the parse with the
      specified outcome. */
  lemma ScanTerminator(s: ParserState, st: ParserState, out: string)
    requires Scanned(s, st, out)
    requires !ErrorMap(Peek, EndOfInput, st).isError && ErrorMap(Peek, EndOfInput, st).result == Num(0)
    ensures var t := Read(U8, ErrorMap(Peek, EndOfInput, st));
            if |out| == 0 then Fail(NoData, t) == NullTerminatedSpec(s)
            else t.(result := Str(out)) == NullTerminatedSpec(s)
  {
    PeekStep(st);
    var peeked := ErrorMap(Peek, EndOfInput, st);
    TerminatorStep(peeked);
    SpecWithZeroAt(s, st.index);
    if |out| > 0 {
      CollectedText(out, s.data, s.index, st.index);
    }
  }

  /** The scanning loop: peek at the byte at the cursor; at a zero byte consume it
      and stop, otherwise consume it as a character and append it. An empty
      string is rejected after the terminator is consumed. */
  method NullTerminatedString(s: ParserState) returns (r: ParserState)
    ensures r == NullTerminatedSpec(s)
  {
    var out: string := "";
    var st := s;
    ScanStart(s);
    while true
      invariant Scanned(s, st, out)
      decreases |st.data| - st.index
    {
      var peeked := ErrorMap(Peek, EndOfInput, st);
      if peeked.isError {
        // a failed input, or no zero byte before the end: the failure ends the parse
        ScanPeekFails(s, st, out);
        return peeked;
      }
      if peeked.result == Num(0) {
        // the terminator is consumed with a one-byte read, which cannot fail here
        ScanTerminator(s, st, out);
        st := Read(U8, peeked);
        break;
      }
      ScanChar(s, st, out);
      st := ErrorMap(AnyChar, EndOfInput, peeked);
      out := out + st.result.s;
    }
    if |out| == 0 {
      return Fail(NoData, st);
    }
    r := st.(result := Str(out));
  }

  /** A run of k >= 1 non-zero bytes followed by a zero byte reads as those k
      characters, with the cursor just past the zero byte. */
  lemma ReadsUpToTerminator(s: ParserState, k: nat)
    requires !s.isError && k >= 1 && s.index + k < |s.data| && s.data[s.index + k] == 0
    requires forall j :: s.index <= j < s.index + k ==> s.data[j] != 0
    ensures !NullTerminatedSpec(s).isError
    ensures NullTerminatedSpec(s).result == Str(Latin1(s.data[s.index..s.index + k]))
    ensures NullTerminatedSpec(s).index == s.index + k + 1
    ensures NullTerminatedSpec(s).error == s.error && NullTerminatedSpec(s).data == s.data
  {
  }

  /** Without a zero byte from the cursor on, the string fails as truncated. */
  lemma TruncatedFails(s: ParserState)
    requires !s.isError && forall j :: s.index <= j < |s.data| ==> s.data[j] != 0
    ensures NullTerminatedSpec(s).isError
    ensures NullTerminatedSpec(s).error == Some(EndOfInput)
    ensures NullTerminatedSpec(s).index == if s.index < |s.data| then |s.data| else s.index
  {
  }

  /** A zero byte at the cursor is consumed, then rejected as an empty string. */
  lemma EmptyStringFails(s: ParserState)
    requires !s.isError && s.index < |s.data| && s.data[s.index] == 0
    ensures NullTerminatedSpec(s).isError
    ensures NullTerminatedSpec(s).error == Some(NoData)
    ensures NullTerminatedSpec(s).index == s.index + 1
  {
  }

  /** Success exactly when a zero byte follows at least one non-zero byte from
      the cursor; the text then holds no zero character and the cursor has moved
      one byte further than the text is long. */
  lemma SucceedsIff(s: ParserState)
    ensures !NullTerminatedSpec(s).isError <==>
              !s.isError && s.index < |s.data| && s.data[s.index] != 0 &&
              exists j :: s.index < j < |s.data| && s.data[j] == 0
    ensures !NullTerminatedSpec(s).isError ==>
              NullTerminatedSpec(s).result.Str? &&
              |NullTerminatedSpec(s).result.s| >= 1 &&
              NullTerminatedSpec(s).index == s.index + |NullTerminatedSpec(s).result.s| + 1 &&
              forall k :: 0 <= k < |NullTerminatedSpec(s).result.s| ==> NullTerminatedSpec(s).result.s[k] != 0 as char
  {
  }

  /** The scan keeps the cursor inside the data. */
  lemma NullTerminatedWellFormed(s: ParserState)
    requires WellFormed(s)
    ensures WellFormed(NullTerminatedSpec(s))
  {
  }
}
