/**
 The unit tests of the client, restated as lemmas: each feeds a byte-array
 stream to the read loop's model and names the message that comes back.
 */
module CrLfTcpClientTests {
  import opened Outcomes
  import opened Framing

  /** The bytes of a string whose characters are all single bytes (ASCII, Latin-1). */
  function Latin1(s: string): (b: Bytes)
    requires forall i :: 0 <= i < |s| ==> s[i] as int < 256
    ensures |b| == |s|
    ensures forall i :: 0 <= i < |s| ==> b[i] as int == s[i] as int
  {
    if s == [] then [] else [s[0] as int as byte] + Latin1(s[1..])
  }

  /** `"\r\n"` reads as the empty message. */
  lemma ReadEmpty()
    ensures Decode(Latin1("\r\n")) == Ok(Frame([], 2))
  {
    assert Latin1("\r\n") == Encode([]) + [];
    DecodeEncode([], []);
  }

  /** `"1\r\n"` reads as `"1"`. */
  lemma ReadSingleChar()
    ensures Decode(Latin1("1\r\n")) == Ok(Frame(Latin1("1"), 3))
  {
    var m := Latin1("1");
    assert Latin1("1\r\n") == Encode(m) + [];
    DecodeEncode(m, []);
  }

  /** `"1\r\r\n"` reads as `"1\r"`: the first CR is data. */
  lemma ReadCarriageReturn()
    ensures Decode(Latin1("1\r\r\n")) == Ok(Frame(Latin1("1\r"), 4))
  {
    var p := Latin1("1");
    assert Latin1("1\r\r\n") == p + [CR, CR, LF] + [];
    assert Latin1("1\r") == p + [CR];
    CrBeforeTerminatorIsData(p, []);
  }

  /** `"test\r\n"` reads as `"test"`. */
  lemma ReadSimple()
    ensures Decode(Latin1("test\r\n")) == Ok(Frame(Latin1("test"), 6))
  {
    var m := Latin1("test");
    assert Latin1("test\r\n") == Encode(m) + [];
    DecodeEncode(m, []);
  }

  /** `"\rtest\r\n"` reads as `"\rtest"`: a leading CR is data. */
  lemma ReadLeadingCr()
    ensures Decode(Latin1("\rtest\r\n")) == Ok(Frame(Latin1("\rtest"), 7))
  {
    var m := Latin1("\rtest");
    assert !CrLfAt(m, 0);
    assert Latin1("\rtest\r\n") == Encode(m) + [];
    DecodeEncode(m, []);
  }

  /** `"te\rst\r\n"` reads as `"te\rst"`: an embedded CR is data. */
  lemma ReadEmbeddedCr()
    ensures Decode(Latin1("te\rst\r\n")) == Ok(Frame(Latin1("te\rst"), 7))
  {
    var m := Latin1("te\rst");
    assert !CrLfAt(m, 2);
    assert Latin1("te\rst\r\n") == Encode(m) + [];
    DecodeEncode(m, []);
  }
}
