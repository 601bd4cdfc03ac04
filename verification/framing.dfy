/**
 The CR LF framing of the TCP client: a message is written as its bytes followed
 by a carriage return and a line feed, and read back as everything before the
 first adjacent CR LF pair. Text is treated as its bytes (the charset
 conversion is the identity here).
 */
module Framing {
  import opened Outcomes

  /** An octet, as the unsigned value 0..255. */
  newtype byte = x: int | 0 <= x < 256

  type Bytes = seq<byte>

  const CR: byte := 0x0D
  const LF: byte := 0x0A

  /** A carriage return at index `i` immediately followed by a line feed. */
  predicate CrLfAt(s: Bytes, i: int) {
    0 <= i && i + 1 < |s| && s[i] == CR && s[i + 1] == LF
  }

  /** `s` contains the two-byte terminator somewhere. */
  predicate HasCrLf(s: Bytes) {
    exists i | 0 <= i < |s| :: CrLfAt(s, i)
  }

  /** Index of the first adjacent CR LF pair. */
  function FirstCrLf(s: Bytes): (i: nat)
    requires HasCrLf(s)
    ensures CrLfAt(s, i)
    ensures forall j :: 0 <= j < i ==> !CrLfAt(s, j)
    decreases |s|
  {
    var w :| CrLfAt(s, w);
    if s[0] == CR && s[1] == LF then 0
    else
      assert CrLfAt(s[1..], w - 1);
      var i' := FirstCrLf(s[1..]);
      assert forall j :: 1 <= j <= i' ==> CrLfAt(s, j) == CrLfAt(s[1..], j - 1);
      1 + i'
  }

  /** The bytes the client writes for `message`: the payload, then CR, then LF. */
  function Encode(message: Bytes): (out: Bytes)
    ensures |out| == |message| + 2
    ensures out[..|message|] == message
    ensures out[|message|] == CR && out[|message| + 1] == LF
    ensures message == [] ==> out == [CR, LF]
  {
    message + [CR, LF]
  }

  /** One frame read off a stream: the message and how many bytes of the stream it used up. */
  datatype Frame = Frame(message: Bytes, consumed: nat)

  /**
   `f` is the first frame of `input`: the stream begins with the message and
   CR LF, exactly those bytes are consumed, and the message holds no CR LF
   pair of its own, so the pair that ends it is the first one in the stream.
   */
  predicate FirstFrameOf(input: Bytes, f: Frame) {
    && f.consumed == |f.message| + 2 <= |input|
    && input[..f.consumed] == Encode(f.message)
    && !HasCrLf(f.message)
  }

  /**
   Reading one frame: the message is everything before the first adjacent
   CR LF pair, and the bytes consumed are the message plus that pair. A stream
   without such a pair yields no frame.
   */
  function Decode(input: Bytes): (r: Result<Frame>)
    ensures r.Ok? <==> HasCrLf(input)
    ensures r.Err? ==> r.error == NoTerminator
    ensures r.Ok? ==> FirstFrameOf(input, r.value)
  {
    if HasCrLf(input) then
      var k := FirstCrLf(input);
      assert input[..k + 2] == input[..k] + [CR, LF];
      assert forall j :: CrLfAt(input[..k], j) ==> CrLfAt(input, j);
      Ok(Frame(input[..k], k + 2))
    else
      Err(NoTerminator)
  }

  /**
   The round trip: a message free of CR LF pairs, written and followed by any
   further bytes, reads back as itself, consuming exactly its encoding. The
   message may end in a carriage return.
   */
  lemma DecodeEncode(message: Bytes, rest: Bytes)
    requires !HasCrLf(message)
    ensures Decode(Encode(message) + rest) == Ok(Frame(message, |message| + 2))
  {
    var input := Encode(message) + rest;
    var n := |message|;
    assert CrLfAt(input, n);
    var k := FirstCrLf(input);
    assert forall j :: 0 <= j < n - 1 ==> CrLfAt(input, j) == CrLfAt(message, j);
    assert input[..k] == message;
  }

  /**
   The converse of `Decode`'s contract: a frame that has the shape of a first
   frame of the stream is the frame `Decode` returns, so that shape pins it down.
   */
  lemma FirstFrameIsDecoded(input: Bytes, f: Frame)
    requires FirstFrameOf(input, f)
    ensures Decode(input) == Ok(f)
  {
    assert input == Encode(f.message) + input[f.consumed..];
    DecodeEncode(f.message, input[f.consumed..]);
  }

  /**
   Only the bytes up to the terminator matter: replacing whatever follows the
   first frame leaves the frame unchanged.
   */
  lemma DecodeIgnoresRest(input: Bytes, rest: Bytes)
    requires Decode(input).Ok?
    ensures Decode(input[..Decode(input).value.consumed] + rest) == Decode(input)
  {
    var f := Decode(input).value;
    DecodeEncode(f.message, rest);
  }

  /**
   A carriage return right before the terminator is data: a message that
   ends in CR keeps it, and only the CR of the final pair is dropped.
   */
  lemma CrBeforeTerminatorIsData(prefix: Bytes, rest: Bytes)
    requires !HasCrLf(prefix)
    ensures Decode(prefix + [CR, CR, LF] + rest) == Ok(Frame(prefix + [CR], |prefix| + 3))
  {
    var m := prefix + [CR];
    forall j | 0 <= j < |m|
      ensures !CrLfAt(m, j)
    {
      if j + 1 < |prefix| {
        assert !CrLfAt(prefix, j);
      }
    }
    assert prefix + [CR, CR, LF] + rest == Encode(m) + rest;
    DecodeEncode(m, rest);
  }
}
