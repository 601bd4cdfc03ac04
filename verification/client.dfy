/**
 The client object around the framing: its configured charset, the accessors
 for a single terminator byte that this client refuses, and the variant of
 `write` that copies a raw input stream.
 */
module CrLfTcpClient {
  import opened Outcomes
  import opened Framing

  /** The client's only state: the charset name fixed at construction. */
  datatype Client = Client(charset: string)

  /**
   Construction: the `tcp.charset` property when it is set, otherwise the
   platform's default charset name.
   */
  function NewClient(configured: Option<string>, platformDefault: string): (c: Client)
    ensures configured.Some? ==> c.charset == configured.value
    ensures configured.None? ==> c.charset == platformDefault
  {
    match configured
    case Some(name) => Client(name)
    case None => Client(platformDefault)
  }

  /** The charset name the client was built with. */
  function GetCharset(c: Client): string {
    c.charset
  }

  /** The charset reported is the configured one, or the platform default when none is configured. */
  lemma GetCharsetOfNewClient(configured: Option<string>, platformDefault: string)
    ensures GetCharset(NewClient(configured, platformDefault))
         == (if configured.Some? then configured.value else platformDefault)
  {
  }

  /** Why both terminator-byte accessors fail. */
  const NotSupported: string := "Method not supported for CrLf terminated data."

  /** There is no single terminator byte to report: the call always fails. */
  function GetEolByte(c: Client): (r: Result<byte>)
    ensures r.Err? && r.error.UnsupportedOperation?
  {
    Err(UnsupportedOperation(NotSupported))
  }

  /** Setting a single terminator byte always fails and leaves the client as it was. */
  function SetEolByte(c: Client, bite: int): (r: (Client, Outcome))
    ensures r.0 == c
    ensures r.1.Fail? && r.1.error.UnsupportedOperation?
  {
    (c, Fail(UnsupportedOperation(NotSupported)))
  }

  /** Size of the copy buffer of `write(OutputStream, InputStream)`. */
  const BufferSize: nat := 512

  /** The bytes the source stream hands out, chunk after chunk. */
  function Concat(chunks: seq<Bytes>): Bytes {
    if chunks == [] then [] else chunks[0] + Concat(chunks[1..])
  }

  /** Handing out one more chunk extends the bytes handed out by that chunk. */
  lemma {:induction false} ConcatAppend(chunks: seq<Bytes>, last: Bytes)
    ensures Concat(chunks + [last]) == Concat(chunks) + last
  {
    if chunks != [] {
      assert (chunks + [last])[1..] == chunks[1..] + [last];
      ConcatAppend(chunks[1..], last);
    }
  }

  /** Every chunk the source stream hands out fits the copy buffer. */
  predicate FitBuffer(chunks: seq<Bytes>) {
    forall i :: 0 <= i < |chunks| ==> 1 <= |chunks[i]| <= BufferSize
  }

  /** Every chunk fills the copy buffer completely. */
  predicate FillBuffer(chunks: seq<Bytes>) {
    forall i :: 0 <= i < |chunks| ==> |chunks[i]| == BufferSize
  }

  /** A stream handing out chunks that fit the buffer hands out at most one full buffer per read, and less when some chunk is short. */
  lemma {:induction false} ConcatLength(chunks: seq<Bytes>)
    requires FitBuffer(chunks)
    ensures |Concat(chunks)| <= BufferSize * |chunks|
    ensures !FillBuffer(chunks) ==> |Concat(chunks)| < BufferSize * |chunks|
  {
    if chunks != [] {
      assert FitBuffer(chunks[1..]) by {
        forall i | 0 <= i < |chunks[1..]| ensures 1 <= |chunks[1..][i]| <= BufferSize {
          assert chunks[1..][i] == chunks[i + 1];
        }
      }
      ConcatLength(chunks[1..]);
      if !FillBuffer(chunks) && |chunks[0]| == BufferSize {
        var i :| 0 <= i < |chunks| && |chunks[i]| != BufferSize;
        assert chunks[1..][i - 1] == chunks[i];
      }
    }
  }

  /**
   The copy buffer after the first `n` reads. Each read overwrites the front
   of the buffer with the chunk read and leaves the rest as it was; a position
   no read has reached yet still holds the zero the buffer was created with.
   */
  function BufferAfter(chunks: seq<Bytes>, n: nat): (buff: Bytes)
    requires FitBuffer(chunks) && n <= |chunks|
    ensures |buff| == BufferSize
    ensures n > 0 ==> buff[..|chunks[n - 1]|] == chunks[n - 1]
    ensures forall k :: 0 <= k < BufferSize && (forall j :: 0 <= j < n ==> |chunks[j]| <= k) ==> buff[k] == 0
  {
    if n == 0 then seq(BufferSize, _ => 0)
    else
      var prev := BufferAfter(chunks, n - 1);
      chunks[n - 1] + prev[|chunks[n - 1]|..]
  }

  /** The first `n` 512-byte blocks of `out` are the buffer as it stood after each of the first `n` reads. */
  predicate BlocksAre(out: Bytes, chunks: seq<Bytes>, n: nat)
    requires FitBuffer(chunks) && n <= |chunks|
  {
    BufferSize * n <= |out| &&
    forall j :: 0 <= j < n ==> out[BufferSize * j .. BufferSize * j + BufferSize] == BufferAfter(chunks, j + 1)
  }

  /** Writing more bytes after the blocks leaves the blocks as they were. */
  lemma BlocksAreExtend(out: Bytes, more: Bytes, chunks: seq<Bytes>, n: nat)
    requires FitBuffer(chunks) && n <= |chunks|
    requires BlocksAre(out, chunks, n)
    ensures BlocksAre(out + more, chunks, n)
  {
    forall j | 0 <= j < n
      ensures (out + more)[BufferSize * j .. BufferSize * j + BufferSize] == BufferAfter(chunks, j + 1)
    {
      assert (out + more)[BufferSize * j .. BufferSize * j + BufferSize]
          == out[BufferSize * j .. BufferSize * j + BufferSize];
    }
  }

  /**
   `write(OutputStream, InputStream)` as written. Each `InputStream.read(byte[])`
   call returns one of `chunks` (between 1 and 512 bytes) into the front of a
   512-byte buffer, and the WHOLE buffer is written, so each chunk shorter
   than the buffer is followed by stale bytes (zeros, or what an earlier
   read left there). After the last chunk the loop sees -1 and CR LF is written.
   */
  method WriteStream(chunks: seq<Bytes>) returns (out: Bytes)
    requires FitBuffer(chunks)
    ensures |out| == BufferSize * |chunks| + 2
    ensures out[|out| - 2] == CR && out[|out| - 1] == LF
    ensures BlocksAre(out, chunks, |chunks|)
    ensures forall j :: 0 <= j < |chunks| ==>
      out[BufferSize * j .. BufferSize * j + |chunks[j]|] == chunks[j]
    ensures FillBuffer(chunks) <==> out == Encode(Concat(chunks))
  {
    var buff: Bytes := seq(BufferSize, _ => 0);
    out := [];
    var i := 0;
    while i < |chunks|
      invariant 0 <= i <= |chunks|
      invariant buff == BufferAfter(chunks, i)
      invariant |out| == BufferSize * i
      invariant BlocksAre(out, chunks, i)
      invariant FillBuffer(chunks) ==> out == Concat(chunks[..i])
    {
      buff := chunks[i] + buff[|chunks[i]|..];
      BlocksAreExtend(out, buff, chunks, i);
      assert (out + buff)[BufferSize * i .. BufferSize * i + BufferSize] == buff;
      out := out + buff;
      assert chunks[..i + 1] == chunks[..i] + [chunks[i]];
      ConcatAppend(chunks[..i], chunks[i]);
      i := i + 1;
    }
    assert chunks[..|chunks|] == chunks;
    BlocksAreExtend(out, [CR, LF], chunks, |chunks|);
    out := out + [CR, LF];
    forall j | 0 <= j < |chunks|
      ensures out[BufferSize * j .. BufferSize * j + |chunks[j]|] == chunks[j]
    {
      assert out[BufferSize * j .. BufferSize * j + |chunks[j]|]
          == out[BufferSize * j .. BufferSize * j + BufferSize][..|chunks[j]|];
    }
    ConcatLength(chunks);
  }
}
