# CR LF framing of the JMeter TCP client

A Dafny model of `CrLfTcpClient`, a `TCPClient` for JMeter's TCP sampler. It
frames each message with a carriage return and a line feed (CR LF, bytes 13 and 10).

- **Write side.** `write(OutputStream, String)` sends the payload bytes, then CR, then LF.
- **Read side.** `read(InputStream)` takes bytes one at a time into an accumulator.
  It stops when three things hold: the byte just read is LF, the previous byte was CR,
  and at least one byte has been accumulated. It then cuts that trailing CR off the
  accumulator and returns the rest.

Bytes are `seq<byte>`, where `byte` is the newtype `0..255`. The charset conversion
on both sides is taken as the identity on bytes.

Files:

- `outcomes.dfy` (module `Outcomes`): `Result`, `Outcome`, `Option` and the client's errors.
- `framing.dfy` (module `Framing`): the reference definitions and the laws that relate them.
  - `Encode` is the write side.
  - `FirstCrLf` finds the first adjacent CR LF pair.
  - `Decode` is the read side as a function.
  - Lemmas: the round trip, uniqueness of the frame read, independence from the bytes after the frame, and a CR before
    the terminator kept as data.
- `read_loop.dfy` (module `ReadLoop`): the Java loop.
  - `Read` is a method with the source's `count`, `last` and accumulator `w`. It is proved
    to return what `Decode` specifies.
  - `Step`/`Run` describe the same loop as a pure function of the iteration count. This
    shows what the loop does on a stream that has no terminator.
- `client.dfy` (module `CrLfTcpClient`): the charset configuration, the terminator-byte
  accessors, and `write(OutputStream, InputStream)`.
- `client_tests.dfy` (module `CrLfTcpClientTests`): the repository's unit tests, stated as lemmas.

## Behaviour at end of stream

Two comments promise reading to the end of the stream. The class comment (lines 35-36)
says the client reads until CR LF "or until the end of the stream is reached". The comment
on `read` (lines 96-97) says: "If there is no EOL byte defined, then reads until the end of
the stream is reached." The code does neither.

- The loop never compares the value of `InputStream.read()` with -1.
- At the end of the stream, -1 is written to the accumulator. Its low byte is 0xFF.
- `last` becomes -1, so the break test can never succeed again.
- On a stream with no adjacent CR LF, the loop therefore never returns a message. Each
  further iteration appends 0xFF without blocking. The `ByteArrayOutputStream` grows until
  the heap or the array-size limit is exhausted, and `count` is a 32-bit `int`. In practice
  `read` ends with an `OutOfMemoryError`, which the `catch (IOException)` at line 136 does
  not catch.

The model follows the code:

- `ReadLoop.Read` requires that the stream contains an adjacent CR LF pair.
- `Framing.Decode` returns the error `NoTerminator` when there is no such pair. It does
  not return the accumulated bytes.
- `ReadLoop.NeverStopsWithoutCrLf` proves, for every iteration count, that the break test
  fails. It also proves that every read past the end appends 0xFF.

Nothing in the model reads until end of stream.

## Model

| member | source | states |
|---|---|---|
| Framing.Encode | src/main/java/nz/geek/caffe/jmeter/CrLfTcpClient.java:65-71 | the bytes written are the payload followed by exactly CR and LF; the empty message is written as exactly CR LF |
| Framing.FirstCrLf | src/main/java/nz/geek/caffe/jmeter/CrLfTcpClient.java:110-115 | the boundary is a CR immediately followed by LF, and no earlier position holds such a pair |
| Framing.Decode | src/main/java/nz/geek/caffe/jmeter/CrLfTcpClient.java:110-135 | a frame is read if and only if the stream holds an adjacent CR LF pair; the bytes consumed are exactly the message followed by CR LF; the message contains no CR LF pair, so the pair that ended it is the first one; with no pair the result is the NoTerminator error |
| Framing.DecodeEncode | src/main/java/nz/geek/caffe/jmeter/CrLfTcpClient.java:65-135 | round trip: any message without an adjacent CR LF (including one that ends in CR), written and followed by any bytes, reads back as itself and consumes exactly its encoding |
| Framing.FirstFrameIsDecoded | src/main/java/nz/geek/caffe/jmeter/CrLfTcpClient.java:110-135 | conversely, a message without a CR LF pair that the stream starts with, followed by CR LF, is exactly the frame read: the boundary is unique |
| Framing.DecodeIgnoresRest | src/main/java/nz/geek/caffe/jmeter/CrLfTcpClient.java:110-115 | the bytes after the terminator are never looked at: replacing them leaves the frame unchanged |
| Framing.CrBeforeTerminatorIsData | src/main/java/nz/geek/caffe/jmeter/CrLfTcpClient.java:113-133 | in prefix CR CR LF only the last CR is stripped; the first CR stays in the message |
| ReadLoop.RunState | src/main/java/nz/geek/caffe/jmeter/CrLfTcpClient.java:106-123 | after n iterations without a break: count is n; the accumulator holds the stream's bytes, with 0xFF for every read past the end; last is the most recent value read, or -1 before the first read |
| ReadLoop.StopsIffCrLf | src/main/java/nz/geek/caffe/jmeter/CrLfTcpClient.java:113-115 | the break test after n iterations holds exactly when n >= 1 and bytes n-1 and n of the stream are CR then LF; a lone CR or a lone LF never breaks |
| ReadLoop.StopsAtFirstCrLf | src/main/java/nz/geek/caffe/jmeter/CrLfTcpClient.java:110-123 | on a stream with a terminator, the loop breaks when it reads the LF of the first CR LF pair and in no earlier iteration |
| ReadLoop.NeverStopsWithoutCrLf | src/main/java/nz/geek/caffe/jmeter/CrLfTcpClient.java:110-123 | on a stream without an adjacent CR LF, no iteration breaks; every read past the end appends 0xFF, the low byte of -1 |
| ReadLoop.Read | src/main/java/nz/geek/caffe/jmeter/CrLfTcpClient.java:100-135 | the loop returns the frame Decode specifies; at the break the accumulator is the first count bytes of the stream, count >= 1 and its last byte is CR; the message is the accumulator minus that CR (count - 1 bytes); count + 1 bytes are consumed and the rest of the stream is left unread; the method's state at the break is the Step/Run model's state after count iterations, and the break test holds there |
| CrLfTcpClient.NewClient | src/main/java/nz/geek/caffe/jmeter/CrLfTcpClient.java:44-45 | the charset is the tcp.charset property when it is set, otherwise the platform default |
| CrLfTcpClient.GetCharsetOfNewClient | src/main/java/nz/geek/caffe/jmeter/CrLfTcpClient.java:141-144 | getCharset reports the charset chosen at construction |
| CrLfTcpClient.GetEolByte | src/main/java/nz/geek/caffe/jmeter/CrLfTcpClient.java:146-150 | always fails with an unsupported-operation error |
| CrLfTcpClient.SetEolByte | src/main/java/nz/geek/caffe/jmeter/CrLfTcpClient.java:152-156 | always fails with an unsupported-operation error, whatever the byte, and leaves the client unchanged |
| CrLfTcpClient.WriteStream | src/main/java/nz/geek/caffe/jmeter/CrLfTcpClient.java:82-93 | each read writes the whole 512-byte buffer: block j of the output is the buffer after read j, with the chunk read at its front and, behind it, what earlier reads left there (zeros where no read reached); the output ends in CR LF; the output is exactly the stream's bytes followed by CR LF if and only if every chunk fills the buffer |
| CrLfTcpClient.ConcatLength | src/main/java/nz/geek/caffe/jmeter/CrLfTcpClient.java:84-87 | reads of at most 512 bytes hand out at most 512 bytes each, and strictly fewer in total when some read is short, which is why the padded output differs from the stream's bytes |
| CrLfTcpClient.BufferAfter | src/main/java/nz/geek/caffe/jmeter/CrLfTcpClient.java:84-85 | the buffer stays 512 bytes long; after a read its front is the chunk read; a position no read has reached yet is still zero |
| CrLfTcpClientTests.ReadEmpty | src/test/java/nz/geek/caffe/jmeter/CrLfTcpClientTest.java:48-56 | "\r\n" reads as the empty message |
| CrLfTcpClientTests.ReadSingleChar | src/test/java/nz/geek/caffe/jmeter/CrLfTcpClientTest.java:65-74 | "1\r\n" reads as "1" |
| CrLfTcpClientTests.ReadCarriageReturn | src/test/java/nz/geek/caffe/jmeter/CrLfTcpClientTest.java:83-91 | "1\r\r\n" reads as "1\r" |
| CrLfTcpClientTests.ReadSimple | src/test/java/nz/geek/caffe/jmeter/CrLfTcpClientTest.java:100-109 | "test\r\n" reads as "test" |
| CrLfTcpClientTests.ReadLeadingCr | src/test/java/nz/geek/caffe/jmeter/CrLfTcpClientTest.java:118-127 | "\rtest\r\n" reads as "\rtest" |
| CrLfTcpClientTests.ReadEmbeddedCr | src/test/java/nz/geek/caffe/jmeter/CrLfTcpClientTest.java:136-145 | "te\rst\r\n" reads as "te\rst" |

## Left out

- ReadLoop.Read: requires an adjacent CR LF pair in the stream. Without one, the source
  loop never returns a message and in practice ends in an `OutOfMemoryError` (see
  "Behaviour at end of stream"). `ReadLoop.NeverStopsWithoutCrLf`
  covers that case instead.
- Framing.Decode: returns `NoTerminator` for a stream without an adjacent CR LF pair. The
  source never returns a message in that case.
- ReadLoop.RunState: the accumulator and `count` are unbounded in the model. The Java
  accumulator is limited by the heap and the maximum array size, and `count` is a 32-bit
  `int`. Neither limit is reached on a stream that holds a terminator of realistic length.
- Charset conversion (`String.getBytes`, `new String(byte[], charset)`) is the identity on
  bytes. It is a call into the Java runtime.
- The `tcp.charset` lookup through `JMeterUtils` becomes an optional value passed to
  `NewClient`. The property store is not part of this model.
- Logging in the constructor, `write` and `read` is left out. It has no effect on the result.
- `IOException` from the streams and its wrapping in `ReadException` are left out. They are
  transport failures outside the framing logic.
- `flush` calls are left out. Output is modelled as the sequence of bytes written.
- CrLfTcpClient.WriteStream: the chunk sizes returned by `InputStream.read(byte[])` are a
  parameter, each between 1 and 512. Which sizes a given stream returns depends on that
  stream's implementation.
- `setupTest` and `teardownTest` are empty in the source. They have nothing to model.
