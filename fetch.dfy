/**
 Fetching one piece: the body is read in chunks of at most 5 MiB, each
 chunk is appended to the output file, fed to both digests and added to
 the shared byte counter, and the progress percentage is computed from
 that counter.
 */
module Fetch {
  import opened Transport

  /** The output file; appends go to its end. */
  class OutputFile {
    var contents: seq<Byte>

    /** os.Create: a new, empty file. */
    constructor Create()
      ensures contents == []
    {
      contents := [];
    }

    /** f.Write */
    method Write(data: seq<Byte>)
      modifies this
      ensures contents == old(contents) + data
    {
      contents := contents + data;
    }

    /** f.Seek(0, io.SeekEnd): the length of the file. */
    method SeekEnd() returns (offset: int)
      ensures offset == |contents|
    {
      offset := |contents|;
    }
  }

  /** The byte counter shared by every piece download of a run. */
  class Transfer {
    var totalBytes: int

    constructor Start()
      ensures totalBytes == 0
    {
      totalBytes := 0;
    }
  }

  /** The digests of a piece's bytes as lowercase hexadecimal strings. */
  datatype Digests = Digests(sha1: string, sha256: string)

  /** The two digest algorithms, SHA-1 and SHA-256, as given functions. */
  datatype Hashers = Hashers(sha1: seq<Byte> -> string, sha256: seq<Byte> -> string)

  datatype FetchError = RequestFailed(msg: string) | BodyReadFailed(msg: string)

  /** Runtime panics of the program. */
  datatype PanicKind = SliceOutOfRange | DivideByZero

  datatype FetchOutcome = Fetched(digests: Digests) | FetchFailed(err: FetchError) | FetchPanicked(kind: PanicKind)

  function Abs(x: int): nat {
    if x < 0 then -x else x
  }

  /**
   Go's integer division, which truncates toward zero: the magnitude of the
   quotient is the floor of |a| / |b|, and a non-zero quotient is positive
   exactly when the operands have the same sign.
   */
  function TruncDiv(a: int, b: int): (q: int)
    requires b != 0
    ensures Abs(q) * Abs(b) <= Abs(a) < (Abs(q) + 1) * Abs(b)
    ensures q != 0 ==> (q > 0 <==> (a < 0) == (b < 0))
  {
    var m := Abs(a) / Abs(b);
    DivBounds(Abs(a), Abs(b), m);
    if (a < 0) == (b < 0) then m else -m
  }

  /**
   The percentage on the progress line: 100 * totalBytes / filesize in
   integer division. It is the largest whole percentage not above the true
   ratio, so it lies between 0 and 100 while no more than `filesize` bytes
   have been transferred.
   */
  function Progress(totalBytes: int, filesize: int): (p: int)
    requires filesize != 0
    ensures filesize > 0 && totalBytes >= 0 ==> p * filesize <= 100 * totalBytes < (p + 1) * filesize
    ensures 0 <= totalBytes <= filesize ==> 0 <= p <= 100
  {
    var p := TruncDiv(100 * totalBytes, filesize);
    assert 0 <= totalBytes <= filesize ==> p <= 100 by {
      if 0 <= totalBytes <= filesize && p > 100 {
        MultiplyMonotone(101, p, filesize);
      }
    }
    p
  }

  lemma DivBounds(n: int, d: int, q: int)
    requires n >= 0 && d > 0 && q == n / d
    ensures q * d <= n < (q + 1) * d
  {
  }

  /** The progress line never goes backwards while the counter grows. */
  lemma ProgressMonotone(total1: int, total2: int, filesize: int)
    requires 0 <= total1 <= total2 && filesize > 0
    ensures Progress(total1, filesize) <= Progress(total2, filesize)
  {
    var p1, p2 := Progress(total1, filesize), Progress(total2, filesize);
    assert p1 * filesize <= 100 * total2 < (p2 + 1) * filesize;
    if p1 > p2 {
      MultiplyMonotone(p2 + 1, p1, filesize);
    }
  }

  lemma MultiplyMonotone(a: int, b: int, c: int)
    requires a <= b && c > 0
    ensures a * c <= b * c
  {
  }

  /** What a piece download leaves in the file and how it ends. */
  datatype Effect = Effect(written: seq<Byte>, outcome: FetchOutcome)

  /**
   The effect of reading a response body to its end, stated over the whole
   body rather than chunk by chunk: all received bytes are appended and the
   digests are those of these bytes, unless the stream ends in an error
   (everything received is still appended) or the file size is 0, in which
   case the progress division fails on the first non-empty chunk, after
   that chunk was appended.
   */
  function BodyEffect(body: Body, filesize: int, h: Hashers): (e: Effect)
    ensures e.written <= Received(body)
    ensures e.outcome.Fetched? <==> Ending(body) == EOF && (filesize != 0 || Received(body) == [])
    ensures e.outcome.Fetched? ==>
      e.written == Received(body) && e.outcome.digests == Digests(h.sha1(e.written), h.sha256(e.written))
    ensures e.outcome.FetchFailed? ==> e.written == Received(body) && Ending(body).ReadFailed?
    ensures Ending(body).ReadFailed? && (filesize != 0 || Received(body) == []) ==>
      e == Effect(Received(body), FetchFailed(BodyReadFailed(Ending(body).msg)))
    ensures filesize == 0 && Received(body) != [] ==> e == Effect(FirstChunk(body), FetchPanicked(DivideByZero))
  {
    var received := Received(body);
    if filesize == 0 && received != [] then Effect(FirstChunk(body), FetchPanicked(DivideByZero))
    else if Ending(body).ReadFailed? then Effect(received, FetchFailed(BodyReadFailed(Ending(body).msg)))
    else Effect(received, Fetched(Digests(h.sha1(received), h.sha256(received))))
  }

  /**
   Bytes that arrive before and together with a read error are still
   appended before the error is returned, and nothing after them is read.
   */
  lemma DataWithErrorIsWritten(before: Body, data: seq<Byte>, msg: string, later: Body, filesize: int, h: Hashers)
    requires forall i :: 0 <= i < |before| ==> before[i].err == NoErr
    requires filesize != 0 || Received(before) + data == []
    ensures BodyEffect(before + [Delivery(data, ReadFailed(msg))] + later, filesize, h)
         == Effect(Received(before) + data, FetchFailed(BodyReadFailed(msg)))
  {
    FirstErrorEndsStream(before, Delivery(data, ReadFailed(msg)), later);
  }

  /** The effect of `fetchPiece`: a failed request appends nothing. */
  function PieceEffect(response: Response, filesize: int, h: Hashers): (e: Effect)
    ensures response.Refused? ==> e.written == [] && e.outcome.FetchFailed? && e.outcome.err.RequestFailed?
    ensures e.written <= (if response.Served? then Received(response.body) else [])
    ensures e.outcome.Fetched? <==>
      response.Served? && Ending(response.body) == EOF && (filesize != 0 || Received(response.body) == [])
    ensures e.outcome.Fetched? ==>
      e.written == Received(response.body) && e.outcome.digests == Digests(h.sha1(e.written), h.sha256(e.written))
  {
    match response
    case Refused(msg) => Effect([], FetchFailed(RequestFailed(msg)))
    case Served(body) => BodyEffect(body, filesize, h)
  }

  /**
   fetchPiece with the network given as `net`: the request, then the chunk
   loop over the response body.
   */
  method FetchPiece(url: string, net: Network, file: OutputFile, filesize: int, transfer: Transfer, h: Hashers)
    returns (outcome: FetchOutcome)
    modifies file, transfer
    ensures var e := PieceEffect(net(url), filesize, h);
      && outcome == e.outcome
      && file.contents == old(file.contents) + e.written
      && transfer.totalBytes == old(transfer.totalBytes) + |e.written|

  {
    var response := net(url);
    if response.Refused? {
      return FetchFailed(RequestFailed(response.msg));
    }
    outcome := CopyBody(response.body, file, filesize, transfer, h);
  }

  /**
   What the chunk loop knows between reads: `fed` holds what has been
   received so far, the rest of the body holds the remainder and how the
   stream ends, and with a zero file size nothing has been fed yet.
   */
  ghost predicate Copying(body: Body, rest: Body, fed: seq<Byte>, filesize: int) {
    && fed + Received(rest) == Received(body)
    && Ending(rest) == Ending(body)
    && (filesize == 0 ==> fed == [] && FirstChunk(rest) == FirstChunk(body))
  }

  /** One read of the chunk loop, and where it leaves the loop. */
  lemma CopyStep(body: Body, rest: Body, fed: seq<Byte>, filesize: int, h: Hashers)
    requires Copying(body, rest, fed, filesize)
    ensures var r := ReadChunk(rest);
      && (filesize == 0 && r.data != [] ==>
            fed == [] && BodyEffect(body, filesize, h) == Effect(r.data, FetchPanicked(DivideByZero)))
      && (r.err == NoErr && (filesize != 0 || r.data == []) ==>
            Copying(body, r.rest, fed + r.data, filesize))
      && (r.err == EOF && (filesize != 0 || r.data == []) ==>
            BodyEffect(body, filesize, h) == Effect(fed + r.data, Fetched(Digests(h.sha1(fed + r.data), h.sha256(fed + r.data)))))
      && (r.err.ReadFailed? && (filesize != 0 || r.data == []) ==>
            BodyEffect(body, filesize, h) == Effect(fed + r.data, FetchFailed(BodyReadFailed(r.err.msg))))
  {
    var r := ReadChunk(rest);
    if filesize == 0 {
      ConsumeFirst(body, rest);
    }
    if r.err == NoErr {
      ConsumeStep(body, rest, fed);
    } else {
      ConsumeLast(body, rest, fed);
    }
  }

  lemma AppendAssoc<T>(a: seq<T>, b: seq<T>, c: seq<T>)
    ensures (a + b) + c == a + (b + c)
  {
  }

  /**
   The chunk loop of fetchPiece: the file grows by exactly what BodyEffect
   says, and the shared counter by the same number of bytes.
   */
  method CopyBody(body: Body, file: OutputFile, filesize: int, transfer: Transfer, h: Hashers)
    returns (outcome: FetchOutcome)
    modifies file, transfer
    ensures outcome == BodyEffect(body, filesize, h).outcome
    ensures file.contents == old(file.contents) + BodyEffect(body, filesize, h).written
    ensures transfer.totalBytes == old(transfer.totalBytes) + |BodyEffect(body, filesize, h).written|
  {
    var rest := body;
    var fed: seq<Byte> := [];  // what both digest states have absorbed
    while true
      invariant Copying(body, rest, fed, filesize)
      invariant file.contents == old(file.contents) + fed
      invariant transfer.totalBytes == old(transfer.totalBytes) + |fed|
      decreases Size(rest)
    {
      var read := ReadChunk(rest);
      CopyStep(body, rest, fed, filesize, h);
      ghost var next := fed + read.data;
      if |read.data| > 0 {
        AppendAssoc(old(file.contents), fed, read.data);
        file.Write(read.data);
        fed := fed + read.data;
        transfer.totalBytes := transfer.totalBytes + |read.data|;
        if filesize == 0 {
          return FetchPanicked(DivideByZero);
        }
        var progress := Progress(transfer.totalBytes, filesize);
      }
      assert fed == next;
      if read.err == EOF {
        break;
      }
      if read.err.ReadFailed? {
        return FetchFailed(BodyReadFailed(read.err.msg));
      }
      rest := read.rest;
    }
    outcome := Fetched(Digests(h.sha1(fed), h.sha256(fed)));
  }
}
