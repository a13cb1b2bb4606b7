/**
 The HTTP side of a piece download, reduced to what the chunk loop sees.
 A response body is the sequence of deliveries the transport makes: each
 carries some bytes and the error, if any, that came with them (Go's
 `Read` may return bytes together with `io.EOF` or another error). Once
 the deliveries are used up, every further read reports end of stream.
 */
module Transport {

  type Byte = bv8

  /** Size of the read buffer of the chunk loop: 5 MiB. */
  const ChunkSize := 1024 * 1024 * 5

  datatype ReadErr = NoErr | EOF | ReadFailed(msg: string)

  datatype Delivery = Delivery(data: seq<Byte>, err: ReadErr)

  type Body = seq<Delivery>

  /** What a GET of a URL yields: a request or transport error, or a body. */
  datatype Response = Refused(msg: string) | Served(body: Body)

  type Network = string -> Response

  /** The number of bytes still to be delivered. */
  function PendingBytes(body: Body): nat {
    if body == [] then 0 else |body[0].data| + PendingBytes(body[1..])
  }

  /** A measure that every read which does not end the stream decreases. */
  function Size(body: Body): nat {
    |body| + PendingBytes(body)
  }

  /** The outcome of one `Read(buffer)` and the body left after it. */
  datatype Read = Read(data: seq<Byte>, err: ReadErr, rest: Body)

  /**
   One read into the 5 MiB buffer: at most ChunkSize bytes of the next
   delivery. A delivery larger than the buffer is handed out over several
   reads, and its error comes with its last part.
   */
  function ReadChunk(body: Body): (r: Read)
    ensures |r.data| <= ChunkSize
    ensures r.err == NoErr ==> Size(r.rest) < Size(body)
  {
    if body == [] then Read([], EOF, [])
    else if |body[0].data| > ChunkSize then
      var rest := [Delivery(body[0].data[ChunkSize..], body[0].err)] + body[1..];
      assert rest[1..] == body[1..];
      Read(body[0].data[..ChunkSize], NoErr, rest)
    else Read(body[0].data, body[0].err, body[1..])
  }

  /**
   Every byte a reader obtains before the stream ends, in order: the data of
   each delivery up to and including the first one that carries an error.
   */
  function Received(body: Body): seq<Byte> {
    if body == [] then []
    else if body[0].err != NoErr then body[0].data
    else body[0].data + Received(body[1..])
  }

  /** How the stream ends: the first error delivered, or end of stream. */
  function Ending(body: Body): (e: ReadErr)
    ensures e != NoErr
  {
    if body == [] then EOF
    else if body[0].err != NoErr then body[0].err
    else Ending(body[1..])
  }

  /** The first non-empty chunk a reader with a 5 MiB buffer obtains, or [] if none. */
  function FirstChunk(body: Body): (r: seq<Byte>)
    ensures |r| <= ChunkSize
    ensures r <= Received(body)
    ensures r == [] <==> Received(body) == []
  {
    if body == [] then []
    else if body[0].data != [] then
      body[0].data[..if |body[0].data| <= ChunkSize then |body[0].data| else ChunkSize]
    else if body[0].err != NoErr then []
    else FirstChunk(body[1..])
  }

  /**
   The first delivery that carries an error ends the stream: what is
   received is everything delivered up to and including it, and the stream
   ends with its error, whatever follows.
   */
  lemma {:induction false} FirstErrorEndsStream(before: Body, d: Delivery, later: Body)
    requires forall i :: 0 <= i < |before| ==> before[i].err == NoErr
    requires d.err != NoErr
    ensures Received(before + [d] + later) == Received(before) + d.data
    ensures Ending(before + [d] + later) == d.err
    decreases |before|
  {
    var body := before + [d] + later;
    if before == [] {
      assert body[0] == d;
    } else {
      assert body[0] == before[0] && body[1..] == before[1..] + [d] + later;
      FirstErrorEndsStream(before[1..], d, later);
      assert Received(body) == before[0].data + (Received(before[1..]) + d.data);
    }
  }

  /** A read of a delivery larger than the buffer leaves its tail at the front of the body. */
  lemma SplitRead(body: Body)
    requires body != [] && |body[0].data| > ChunkSize
    ensures var r := ReadChunk(body);
      && Received(body) == r.data + Received(r.rest)
      && Ending(r.rest) == Ending(body)
      && r.data == FirstChunk(body)
  {
    var d := body[0].data;
    var rest := ReadChunk(body).rest;
    assert rest[0] == Delivery(d[ChunkSize..], body[0].err) && rest[1..] == body[1..];
    assert d == d[..ChunkSize] + d[ChunkSize..];
  }

  /**
   A read hands out the next part of what is received and leaves the rest,
   and the way the stream ends, for later reads.
   */
  lemma ReadChunkStep(body: Body)
    ensures var r := ReadChunk(body);
      && (r.err == NoErr ==> Received(body) == r.data + Received(r.rest) && Ending(r.rest) == Ending(body))
      && (r.err != NoErr ==> Received(body) == r.data && Ending(body) == r.err)
      && (r.data != [] ==> r.data == FirstChunk(body))
      && (r.data == [] && r.err == NoErr ==> FirstChunk(r.rest) == FirstChunk(body))
  {
    if body != [] && |body[0].data| > ChunkSize {
      SplitRead(body);
    }
  }

  /** A read that does not end the stream moves its bytes from what is pending to what is consumed. */
  lemma ConsumeStep(body: Body, rest: Body, consumed: seq<Byte>)
    requires consumed + Received(rest) == Received(body)
    requires ReadChunk(rest).err == NoErr
    ensures (consumed + ReadChunk(rest).data) + Received(ReadChunk(rest).rest) == Received(body)
    ensures Ending(ReadChunk(rest).rest) == Ending(rest)
  {
    ReadChunkStep(rest);
    var r := ReadChunk(rest);
    assert (consumed + r.data) + Received(r.rest) == consumed + (r.data + Received(r.rest));
  }

  /** The read that ends the stream completes what is received. */
  lemma ConsumeLast(body: Body, rest: Body, consumed: seq<Byte>)
    requires consumed + Received(rest) == Received(body)
    requires ReadChunk(rest).err != NoErr
    ensures consumed + ReadChunk(rest).data == Received(body)
    ensures Ending(rest) == ReadChunk(rest).err
  {
    ReadChunkStep(rest);
  }

  /** While nothing has been consumed, the first non-empty read is the body's first chunk. */
  lemma ConsumeFirst(body: Body, rest: Body)
    requires Received(rest) == Received(body) && FirstChunk(rest) == FirstChunk(body)
    ensures ReadChunk(rest).data != [] ==> ReadChunk(rest).data == FirstChunk(body)
    ensures ReadChunk(rest).data == [] && ReadChunk(rest).err == NoErr ==>
      FirstChunk(ReadChunk(rest).rest) == FirstChunk(body) && Received(ReadChunk(rest).rest) == Received(body)
  {
    ReadChunkStep(rest);
  }
}
