/**
 The client's read loop as written: one byte at a time from the stream, each
 byte appended to an accumulator, until the current byte is LF, the previous
 one was CR and something has been accumulated; the trailing CR is then cut off.
 The loop has no end-of-stream test, so it is modelled twice: as a method that
 mirrors it on streams that hold a terminator, and as a step function whose
 runs show what happens on streams that do not.
 */
module ReadLoop {
  import opened Outcomes
  import opened Framing

  /** The value `InputStream.read()` returns once the stream is exhausted. */
  const EndOfStream: int := -1

  /** `InputStream.read()` on a byte-array stream at position `pos`: the byte as 0..255, or -1 past the end. */
  function StreamRead(input: Bytes, pos: nat): (b: int)
    ensures -1 <= b < 256
  {
    if pos < |input| then input[pos] as int else EndOfStream
  }

  /** `ByteArrayOutputStream.write(int)` stores the low eight bits of its argument. */
  function LowByte(b: int): byte {
    (b % 256) as byte
  }

  /** The loop's variables: the accumulator `w`, `count` and `last`. */
  datatype LoopState = LoopState(acc: Bytes, count: nat, last: int)

  /** The state before the first iteration. */
  const Start := LoopState([], 0, EndOfStream)

  /** The loop's break test on the byte it has just read. */
  predicate Stops(input: Bytes, st: LoopState) {
    st.count > 0 && StreamRead(input, st.count) == LF as int && st.last == CR as int
  }

  /** One iteration that does not break: append the byte read, count it, remember it. */
  function Step(input: Bytes, st: LoopState): LoopState {
    var b := StreamRead(input, st.count);
    LoopState(st.acc + [LowByte(b)], st.count + 1, b)
  }

  /** The state after `n` iterations that did not break. */
  function Run(input: Bytes, n: nat): LoopState {
    if n == 0 then Start else Step(input, Run(input, n - 1))
  }

  /** The low byte of a byte read back as an int is the byte itself. */
  lemma LowByteOfByte(x: byte)
    ensures LowByte(x as int) == x
  {
  }

  /**
   What `n` iterations leave behind: `n` bytes counted, the accumulator holding
   the stream's bytes and 0xFF (the low byte of -1) for every read past its end,
   and `last` the value of the most recent read.
   */
  lemma {:induction false} RunState(input: Bytes, n: nat)
    ensures Run(input, n).count == n
    ensures |Run(input, n).acc| == n
    ensures forall i :: 0 <= i < n ==> Run(input, n).acc[i] == (if i < |input| then input[i] else 0xFF)
    ensures Run(input, n).last == (if n == 0 then EndOfStream else StreamRead(input, n - 1))
  {
    if n > 0 {
      RunState(input, n - 1);
      if n - 1 < |input| {
        LowByteOfByte(input[n - 1]);
      }
    }
  }

  /**
   The break test after `n` iterations holds exactly when the last two bytes
   read, at `n - 1` and `n`, are an adjacent CR LF pair of the stream.
   */
  lemma StopsIffCrLf(input: Bytes, n: nat)
    ensures Stops(input, Run(input, n)) <==> n > 0 && CrLfAt(input, n - 1)
  {
    RunState(input, n);
  }

  /**
   On a stream holding a terminator the loop breaks in the iteration that
   reads the LF of the first CR LF pair, and in no earlier one.
   */
  lemma StopsAtFirstCrLf(input: Bytes)
    requires HasCrLf(input)
    ensures Stops(input, Run(input, FirstCrLf(input) + 1))
    ensures forall n: nat :: n <= FirstCrLf(input) ==> !Stops(input, Run(input, n))
  {
    forall n: nat | n <= FirstCrLf(input) + 1 {
      StopsIffCrLf(input, n);
    }
  }

  /**
   The missing end-of-stream test: on a stream with no CR LF pair no iteration
   ever breaks, and once the stream is exhausted every further iteration
   appends 0xFF to the accumulator.
   */
  lemma NeverStopsWithoutCrLf(input: Bytes, n: nat)
    requires !HasCrLf(input)
    ensures !Stops(input, Run(input, n))
    ensures |input| < n ==> |Run(input, n).acc| == n && Run(input, n).acc[n - 1] == 0xFF
  {
    RunState(input, n);
    StopsIffCrLf(input, n);
  }

  /**
   The read loop itself, on a stream that holds a terminator. It returns the
   message, the number of bytes taken from the stream (the accumulated ones
   plus the LF that broke the loop) and the accumulator at the break, whose
   last byte is the CR that is cut off.
   */
  method Read(input: Bytes) returns (message: Bytes, consumed: nat, accumulated: Bytes)
    requires HasCrLf(input)
    ensures Decode(input) == Ok(Frame(message, consumed))
    ensures consumed == |accumulated| + 1
    ensures input[..|accumulated|] == accumulated
    ensures |accumulated| >= 1 && accumulated[|accumulated| - 1] == CR
    ensures message == accumulated[..|accumulated| - 1]
    ensures Run(input, |accumulated|) == LoopState(accumulated, |accumulated|, CR as int)
    ensures Stops(input, Run(input, |accumulated|))
  {
    ghost var k := FirstCrLf(input);
    var w: Bytes := [];
    var count := 0;
    var read := 0;
    var last := EndOfStream;
    while true
      invariant 0 <= count <= k + 1
      invariant LoopState(w, count, last) == Run(input, count)
      invariant w == input[..count]
      invariant last == (if count == 0 then EndOfStream else input[count - 1] as int)
      decreases k + 1 - count
    {
      read := StreamRead(input, count);
      if count > 0 && read == LF as int && last == CR as int {
        break;
      }
      LowByteOfByte(input[count]);
      w := w + [LowByte(read)];
      count := count + 1;
      last := read;
    }
    assert CrLfAt(input, count - 1);
    assert count - 1 == k;
    // cut off the trailing CR
    message := w[..count - 1];
    consumed := count + 1;
    accumulated := w;
    assert message == input[..k];
  }
}
