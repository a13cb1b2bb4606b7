/**
 The body of the program: the URL argument is rewritten and named, the
 manifest fetched, its pieces sorted by offset and then fetched one after
 the other into a single output file. Around every piece the file length
 and the digests are compared with what the manifest declares; a mismatch
 only produces a warning, while a failed request or read ends the program.
 */
module Assembly {
  import opened Text
  import opened Naming
  import opened Pieces
  import opened Transport
  import opened Fetch

  /** The warnings the program prints; none of them stops it. */
  datatype Warning =
    | OffsetMismatch(expected: int, got: int)
    | SizeMismatch(expected: int, got: int)
    | HashMismatch(declared: string, digest: string)
    | FileSizeMismatch(expected: int, got: int)

  /** How the piece loop ends: after the last piece, or at the first piece that fails. */
  datatype Status = Completed | PieceFailed(err: FetchError) | Panicked(kind: PanicKind)

  /** The output file, the warnings printed so far and how the run stands. */
  datatype Assembly = Assembly(contents: seq<Byte>, warnings: seq<Warning>, status: Status)

  /**
   A declared hash matches when it equals either digest up to case; only a
   hash as long as one of the digests can match.
   */
  predicate HashAccepted(declared: string, d: Digests): (b: bool)
    ensures b ==> |declared| == |d.sha1| || |declared| == |d.sha256|
  {
    EqualFold(declared, d.sha1) || EqualFold(declared, d.sha256)
  }

  /** A declared hash is accepted exactly when it equals one of the digests once both are lower-cased. */
  lemma HashAcceptedIsLowerEquality(declared: string, d: Digests)
    ensures HashAccepted(declared, d) <==> ToLower(declared) == ToLower(d.sha1) || ToLower(declared) == ToLower(d.sha256)
  {
    EqualFoldIsLowerEquality(declared, d.sha1);
    EqualFoldIsLowerEquality(declared, d.sha256);
  }

  /** The number of hash warnings among `ws`. */
  function HashWarnings(ws: seq<Warning>): nat
    decreases |ws|
  {
    if ws == [] then 0 else (if ws[0].HashMismatch? then 1 else 0) + HashWarnings(ws[1..])
  }

  lemma {:induction false} HashWarningsAppend(ws: seq<Warning>, vs: seq<Warning>)
    ensures HashWarnings(ws + vs) == HashWarnings(ws) + HashWarnings(vs)
    decreases |ws|
  {
    if ws != [] {
      assert (ws + vs)[1..] == ws[1..] + vs;
      HashWarningsAppend(ws[1..], vs);
    } else {
      assert ws + vs == vs;
    }
  }

  /**
   The warning printed before a piece is fetched: one offset warning,
   naming the declared and the actual offset, exactly when the file does
   not end at the piece's offset.
   */
  function OffsetCheck(p: Piece, offset: int): (r: seq<Warning>)
    ensures r == [] <==> offset == p.fileOffset
    ensures r != [] ==> r == [OffsetMismatch(p.fileOffset, offset)]
  {
    if offset != p.fileOffset then [OffsetMismatch(p.fileOffset, offset)] else []
  }

  /**
   The warnings printed after a piece is fetched, in this order: a size
   warning exactly when the file does not end where the piece should, and
   exactly one hash warning when the declared hash matches neither digest.
   */
  function PieceChecks(p: Piece, offset: int, d: Digests): (r: seq<Warning>)
    ensures SizeMismatch(p.fileOffset + p.fileSize, offset) in r <==> offset != p.fileOffset + p.fileSize
    ensures HashWarnings(r) == if HashAccepted(p.hashValue, d) then 0 else 1
    ensures r == [] <==> offset == p.fileOffset + p.fileSize && HashAccepted(p.hashValue, d)
    ensures forall i :: 0 <= i < |r| ==> r[i].SizeMismatch? || r[i].HashMismatch?
    ensures |r| == (if offset != p.fileOffset + p.fileSize then 1 else 0) + (if HashAccepted(p.hashValue, d) then 0 else 1)
    ensures forall i :: 0 <= i < |r| && r[i].SizeMismatch? ==> r[i] == SizeMismatch(p.fileOffset + p.fileSize, offset)
    ensures forall i :: 0 <= i < |r| && r[i].HashMismatch? ==> r[i] == HashMismatch(p.hashValue, d.sha1)
  {
    var size := if offset != p.fileOffset + p.fileSize then [SizeMismatch(p.fileOffset + p.fileSize, offset)] else [];
    var hash := if !HashAccepted(p.hashValue, d) then [HashMismatch(p.hashValue, d.sha1)] else [];
    HashWarningsAppend(size, hash);
    assert HashWarnings(hash) == |hash| by {
      if hash != [] {
        assert hash[1..] == [];
      }
    }
    size + hash
  }

  /**
   One pass of the piece loop from the state `a`: the offset check, the
   download, then the size and hash checks. The offset warning is printed
   whatever the download does, the file grows by what the download
   appended, and the loop goes on exactly when the download succeeded.
   */
  function CheckPiece(p: Piece, net: Network, h: Hashers, filesize: int, a: Assembly): (r: Assembly)
    ensures r.contents == a.contents + PieceEffect(net(p.url), filesize, h).written
    ensures r.status == Completed <==> PieceEffect(net(p.url), filesize, h).outcome.Fetched?
    ensures r.status != Completed ==> r.warnings == a.warnings + OffsetCheck(p, |a.contents|)
    ensures r.status == Completed ==>
      r.warnings == a.warnings + OffsetCheck(p, |a.contents|)
                    + PieceChecks(p, |r.contents|, PieceEffect(net(p.url), filesize, h).outcome.digests)
  {
    var warned := a.warnings + OffsetCheck(p, |a.contents|);
    var e := PieceEffect(net(p.url), filesize, h);
    var contents := a.contents + e.written;
    match e.outcome
    case FetchFailed(err) => Assembly(contents, warned, PieceFailed(err))
    case FetchPanicked(kind) => Assembly(contents, warned, Panicked(kind))
    case Fetched(d) => Assembly(contents, warned + PieceChecks(p, |contents|, d), Completed)
  }

  /**
   The piece loop over `pieces` from the state `a`, stopping at the first
   piece whose download fails. The file only grows and printed warnings
   stay printed.
   */
  function Assemble(pieces: seq<Piece>, net: Network, h: Hashers, filesize: int, a: Assembly): (r: Assembly)
    requires a.status == Completed
    ensures a.contents <= r.contents
    ensures a.warnings <= r.warnings
    decreases |pieces|
  {
    if pieces == [] then a
    else
      var b := CheckPiece(pieces[0], net, h, filesize, a);
      if b.status == Completed then Assemble(pieces[1..], net, h, filesize, b) else b
  }

  /**
   A piece that is fetched in place, with its declared length and a hash
   that matches, adds no warning and lets the loop go on.
   */
  lemma CleanPieceIsSilent(p: Piece, net: Network, h: Hashers, filesize: int, a: Assembly)
    requires var e := PieceEffect(net(p.url), filesize, h);
      && e.outcome.Fetched?
      && |a.contents| == p.fileOffset
      && |e.written| == p.fileSize
      && HashAccepted(p.hashValue, e.outcome.digests)
    ensures CheckPiece(p, net, h, filesize, a).warnings == a.warnings
    ensures CheckPiece(p, net, h, filesize, a).status == Completed
  {
    var r := CheckPiece(p, net, h, filesize, a);
    assert OffsetCheck(p, |a.contents|) == [];
    assert PieceChecks(p, |r.contents|, PieceEffect(net(p.url), filesize, h).outcome.digests) == [];
    assert a.warnings + [] + [] == a.warnings;
  }

  /**
   The offset warning of one pass is printed exactly when the file does
   not end at the piece's declared offset, whatever the download does.
   */
  lemma OffsetWarningExactly(p: Piece, net: Network, h: Hashers, filesize: int, a: Assembly)
    ensures var r := CheckPiece(p, net, h, filesize, a);
      && a.warnings <= r.warnings
      && (OffsetMismatch(p.fileOffset, |a.contents|) in r.warnings[|a.warnings|..] <==> |a.contents| != p.fileOffset)
  {
    var r := CheckPiece(p, net, h, filesize, a);
    var offset := OffsetCheck(p, |a.contents|);
    var added := r.warnings[|a.warnings|..];
    var offsetWarning := OffsetMismatch(p.fileOffset, |a.contents|);
    if r.status == Completed {
      var checks := PieceChecks(p, |r.contents|, PieceEffect(net(p.url), filesize, h).outcome.digests);
      assert r.warnings == a.warnings + (offset + checks);
      assert added == offset + checks;
      assert offsetWarning !in checks;
    } else {
      assert added == offset;
    }
  }

  /**
   Once a piece is fetched, the size warning is printed exactly when the
   file does not end at the piece's offset + size.
   */
  lemma SizeWarningExactly(p: Piece, net: Network, h: Hashers, filesize: int, a: Assembly)
    requires PieceEffect(net(p.url), filesize, h).outcome.Fetched?
    ensures var r := CheckPiece(p, net, h, filesize, a);
      && a.warnings <= r.warnings
      && ((SizeMismatch(p.fileOffset + p.fileSize, |r.contents|) in r.warnings[|a.warnings|..])
          == (|r.contents| != p.fileOffset + p.fileSize))
  {
    var r := CheckPiece(p, net, h, filesize, a);
    var offset := OffsetCheck(p, |a.contents|);
    var checks := PieceChecks(p, |r.contents|, PieceEffect(net(p.url), filesize, h).outcome.digests);
    var size := SizeMismatch(p.fileOffset + p.fileSize, |r.contents|);
    assert r.warnings == a.warnings + offset + checks;
    assert size !in offset;
    AddedAfter(a.warnings, offset, checks, size);
  }

  /** What follows `before` is `skipped + rest`, and `x` is in it exactly when it is in `rest`, if it is not in `skipped`. */
  lemma AddedAfter<T>(before: seq<T>, skipped: seq<T>, rest: seq<T>, x: T)
    requires x !in skipped
    ensures before <= before + skipped + rest
    ensures (x in (before + skipped + rest)[|before|..]) == (x in rest)
  {
    assert (before + skipped + rest)[|before|..] == skipped + rest;
  }

  /**
   Once a piece is fetched, exactly one hash warning is printed when the
   declared hash matches neither digest, and none when it matches one.
   */
  lemma HashWarningExactly(p: Piece, net: Network, h: Hashers, filesize: int, a: Assembly)
    requires PieceEffect(net(p.url), filesize, h).outcome.Fetched?
    ensures var r := CheckPiece(p, net, h, filesize, a);
      && a.warnings <= r.warnings
      && HashWarnings(r.warnings[|a.warnings|..])
         == if HashAccepted(p.hashValue, PieceEffect(net(p.url), filesize, h).outcome.digests) then 0 else 1
  {
    var r := CheckPiece(p, net, h, filesize, a);
    var offset := OffsetCheck(p, |a.contents|);
    var checks := PieceChecks(p, |r.contents|, PieceEffect(net(p.url), filesize, h).outcome.digests);
    assert r.warnings == a.warnings + (offset + checks);
    assert r.warnings[|a.warnings|..] == offset + checks;
    assert HashWarnings(offset) == 0 by {
      if offset != [] {
        assert offset[1..] == [];
      }
    }
    HashWarningsAppend(offset, checks);
  }

  /** A piece whose download fails gets no size or hash warning. */
  lemma FailedPieceUnchecked(p: Piece, net: Network, h: Hashers, filesize: int, a: Assembly)
    requires !PieceEffect(net(p.url), filesize, h).outcome.Fetched?
    ensures var r := CheckPiece(p, net, h, filesize, a);
      && a.warnings <= r.warnings
      && forall w :: w in r.warnings[|a.warnings|..] ==> w.OffsetMismatch?
  {
    var r := CheckPiece(p, net, h, filesize, a);
    assert r.warnings[|a.warnings|..] == OffsetCheck(p, |a.contents|);
  }

  /**
   The check after the loop: when every piece was fetched, a file whose
   length differs from the declared original size gets one more warning.
   */
  function Finish(expected: int, a: Assembly): (r: Assembly)
    ensures r.contents == a.contents && r.status == a.status
    ensures a.warnings <= r.warnings
    ensures r.warnings == a.warnings <==> !(a.status == Completed && |a.contents| != expected)
    ensures r.warnings != a.warnings ==> r.warnings == a.warnings + [FileSizeMismatch(expected, |a.contents|)]
  {
    if a.status == Completed && |a.contents| != expected then
      Assembly(a.contents, a.warnings + [FileSizeMismatch(expected, |a.contents|)], a.status)
    else a
  }

  /**
   The body of the piece loop: the file length is read before and after
   the piece is fetched, and the warnings are printed as CheckPiece says.
   The shared counter grows by exactly the bytes appended.
   */
  method AssemblePiece(piece: Piece, net: Network, h: Hashers, filesize: int, file: OutputFile, transfer: Transfer,
                       printed: seq<Warning>)
    returns (warnings: seq<Warning>, status: Status)
    modifies file, transfer
    ensures Assembly(file.contents, warnings, status)
         == CheckPiece(piece, net, h, filesize, Assembly(old(file.contents), printed, Completed))
    ensures transfer.totalBytes - old(transfer.totalBytes) == |file.contents| - |old(file.contents)|
  {
    warnings := printed;
    var offset := file.SeekEnd();
    if offset != piece.fileOffset {
      warnings := warnings + [OffsetMismatch(piece.fileOffset, offset)];
    }
    var outcome := FetchPiece(piece.url, net, file, filesize, transfer, h);
    if outcome.FetchFailed? {
      return warnings, PieceFailed(outcome.err);
    }
    if outcome.FetchPanicked? {
      return warnings, Panicked(outcome.kind);
    }
    ghost var fetched := warnings;
    offset := file.SeekEnd();
    var sizeWarning: seq<Warning> := [];
    if offset != piece.fileOffset + piece.fileSize {
      sizeWarning := [SizeMismatch(piece.fileOffset + piece.fileSize, offset)];
    }
    var hashWarning: seq<Warning> := [];
    var accepted := EqualFold(piece.hashValue, outcome.digests.sha1) || EqualFold(piece.hashValue, outcome.digests.sha256);
    assert accepted == HashAccepted(piece.hashValue, outcome.digests);
    if !accepted {
      hashWarning := [HashMismatch(piece.hashValue, outcome.digests.sha1)];
    }
    warnings := warnings + sizeWarning + hashWarning;
    AppendAssoc(fetched, sizeWarning, hashWarning);
    assert sizeWarning + hashWarning == PieceChecks(piece, offset, outcome.digests);
    status := Completed;
  }

  /**
   The loop over the sorted pieces. The file and the warnings evolve as
   Assemble says, and the shared counter grows by exactly the bytes appended.
   */
  method AssemblePieces(pieces: seq<Piece>, net: Network, h: Hashers, filesize: int, file: OutputFile, transfer: Transfer)
    returns (warnings: seq<Warning>, status: Status)
    modifies file, transfer
    ensures Assembly(file.contents, warnings, status)
         == Assemble(pieces, net, h, filesize, Assembly(old(file.contents), [], Completed))
    ensures transfer.totalBytes - old(transfer.totalBytes) == |file.contents| - |old(file.contents)|
  {
    warnings := [];
    var i := 0;
    ghost var goal := Assemble(pieces, net, h, filesize, Assembly(file.contents, [], Completed));
    assert pieces[i..] == pieces;
    while i < |pieces|
      invariant i <= |pieces|
      invariant Assemble(pieces[i..], net, h, filesize, Assembly(file.contents, warnings, Completed)) == goal
      invariant transfer.totalBytes - old(transfer.totalBytes) == |file.contents| - |old(file.contents)|
    {
      assert pieces[i..][0] == pieces[i] && pieces[i..][1..] == pieces[i + 1..];
      warnings, status := AssemblePiece(pieces[i], net, h, filesize, file, transfer, warnings);
      if status != Completed {
        return;
      }
      i := i + 1;
    }
    status := Completed;
  }

  /**
   The warnings of one piece are printed whatever follows: the offset
   warning whenever the file does not end at the piece's offset, and, once
   the piece is fetched, the size and hash warnings.
   */
  lemma PieceWarningsPrinted(pieces: seq<Piece>, net: Network, h: Hashers, filesize: int, contents: seq<Byte>, warnings: seq<Warning>)
    requires pieces != []
    ensures var p := pieces[0];
      var r := Assemble(pieces, net, h, filesize, Assembly(contents, warnings, Completed));
      var e := PieceEffect(net(p.url), filesize, h);
      && warnings + OffsetCheck(p, |contents|) <= r.warnings
      && (e.outcome.Fetched? ==>
            warnings + OffsetCheck(p, |contents|) + PieceChecks(p, |contents + e.written|, e.outcome.digests) <= r.warnings)
  {
  }

  /**
   The downloads alone, with every check left out: each piece's effect is
   appended in turn until one fails.
   */
  function Download(pieces: seq<Piece>, net: Network, h: Hashers, filesize: int, contents: seq<Byte>): (r: (seq<Byte>, Status))
    ensures contents <= r.0
    decreases |pieces|
  {
    if pieces == [] then (contents, Completed)
    else
      var e := PieceEffect(net(pieces[0].url), filesize, h);
      match e.outcome
      case FetchFailed(err) => (contents + e.written, PieceFailed(err))
      case FetchPanicked(kind) => (contents + e.written, Panicked(kind))
      case Fetched(_) => Download(pieces[1..], net, h, filesize, contents + e.written)
  }

  /**
   Warnings are only printed: the file and the way the loop ends are those
   of the downloads without any check, and the warnings already printed
   are kept.
   */
  lemma {:induction false} WarningsAreNonFatal(pieces: seq<Piece>, net: Network, h: Hashers, filesize: int, contents: seq<Byte>, warnings: seq<Warning>)
    ensures var r := Assemble(pieces, net, h, filesize, Assembly(contents, warnings, Completed));
      (r.contents, r.status) == Download(pieces, net, h, filesize, contents)
    decreases |pieces|
  {
    if pieces != [] {
      var p := pieces[0];
      var e := PieceEffect(net(p.url), filesize, h);
      if e.outcome.Fetched? {
        var grown := contents + e.written;
        var warned := warnings + OffsetCheck(p, |contents|) + PieceChecks(p, |grown|, e.outcome.digests);
        WarningsAreNonFatal(pieces[1..], net, h, filesize, grown, warned);
      }
    }
  }

  /** The pieces tile the file from `start` on: each begins where the one before it ends. */
  predicate Contiguous(pieces: seq<Piece>, start: int)
    decreases |pieces|
  {
    pieces == [] || (pieces[0].fileOffset == start && Contiguous(pieces[1..], start + pieces[0].fileSize))
  }

  function TotalSize(pieces: seq<Piece>): int
    decreases |pieces|
  {
    if pieces == [] then 0 else pieces[0].fileSize + TotalSize(pieces[1..])
  }

  /**
   A loop that runs to the end without a warning had pieces that tile the
   file from where it started, and grew the file by their declared sizes.
   */
  lemma {:induction false} SilentRunIsContiguous(pieces: seq<Piece>, net: Network, h: Hashers, filesize: int, contents: seq<Byte>, warnings: seq<Warning>)
    requires var r := Assemble(pieces, net, h, filesize, Assembly(contents, warnings, Completed));
      r.status == Completed && r.warnings == warnings
    ensures Contiguous(pieces, |contents|)
    ensures |Assemble(pieces, net, h, filesize, Assembly(contents, warnings, Completed)).contents|
         == |contents| + TotalSize(pieces)
    decreases |pieces|
  {
    if pieces != [] {
      var p := pieces[0];
      var e := PieceEffect(net(p.url), filesize, h);
      var grown := contents + e.written;
      var warned := warnings + OffsetCheck(p, |contents|) + PieceChecks(p, |grown|, e.outcome.digests);
      var r := Assemble(pieces[1..], net, h, filesize, Assembly(grown, warned, Completed));
      assert |warned| <= |r.warnings| == |warnings|;
      assert |OffsetCheck(p, |contents|)| == 0 && |PieceChecks(p, |grown|, e.outcome.digests)| == 0;
      assert warned == warnings;
      SilentRunIsContiguous(pieces[1..], net, h, filesize, grown, warned);
    }
  }

  /**
   A piece is served intact when its URL answers with a body that ends
   normally, carries as many bytes as the piece declares and has a digest
   the declared hash accepts (and, with a zero file size, is empty, since
   the progress division fails on the first byte otherwise).
   */
  predicate ServedIntact(p: Piece, net: Network, h: Hashers, filesize: int) {
    && net(p.url).Served?
    && var data := Received(net(p.url).body);
    && Ending(net(p.url).body) == EOF
    && |data| == p.fileSize
    && HashAccepted(p.hashValue, Digests(h.sha1(data), h.sha256(data)))
    && (filesize != 0 || data == [])
  }

  /** The bytes the pieces' URLs serve, one piece after the other. */
  function Payload(pieces: seq<Piece>, net: Network): seq<Byte>
    decreases |pieces|
  {
    if pieces == [] then []
    else
      var response := net(pieces[0].url);
      (if response.Served? then Received(response.body) else []) + Payload(pieces[1..], net)
  }

  /**
   Pieces that tile the file and are all served intact are appended one
   after the other, without any warning.
   */
  lemma {:induction false} IntactPiecesAssembleSilently(pieces: seq<Piece>, net: Network, h: Hashers, filesize: int, contents: seq<Byte>, warnings: seq<Warning>)
    requires Contiguous(pieces, |contents|)
    requires forall i :: 0 <= i < |pieces| ==> ServedIntact(pieces[i], net, h, filesize)
    ensures Assemble(pieces, net, h, filesize, Assembly(contents, warnings, Completed))
         == Assembly(contents + Payload(pieces, net), warnings, Completed)
    ensures |Payload(pieces, net)| == TotalSize(pieces)
    decreases |pieces|
  {
    if pieces != [] {
      var p := pieces[0];
      assert ServedIntact(p, net, h, filesize);
      var data := Received(net(p.url).body);
      var d := Digests(h.sha1(data), h.sha256(data));
      assert PieceEffect(net(p.url), filesize, h) == Effect(data, Fetched(d));
      var grown := contents + data;
      assert PieceChecks(p, |grown|, d) == [] && OffsetCheck(p, |contents|) == [];
      assert Assemble(pieces, net, h, filesize, Assembly(contents, warnings, Completed)) == Assemble(pieces[1..], net, h, filesize, CheckPiece(pieces[0], net, h, filesize, Assembly(contents, warnings, Completed)));
      assert warnings + OffsetCheck(p, |contents|) + PieceChecks(p, |grown|, d) == warnings;
      assert forall i :: 0 <= i < |pieces[1..]| ==> pieces[1..][i] == pieces[i + 1];
      IntactPiecesAssembleSilently(pieces[1..], net, h, filesize, grown, warnings);
      AppendAssoc(contents, data, Payload(pieces[1..], net));
    }
  }

  /**
   A whole download from an empty file: when the sorted pieces tile the
   file from offset 0, each is served intact and the declared original size
   is their total, the file holds exactly the served bytes and no warning
   is printed.
   */
  lemma CleanDownload(order: seq<Piece>, originalFileSize: int, net: Network, h: Hashers)
    requires Contiguous(order, 0) && originalFileSize == TotalSize(order)
    requires forall i :: 0 <= i < |order| ==> ServedIntact(order[i], net, h, originalFileSize)
    ensures Finish(originalFileSize, Assemble(order, net, h, originalFileSize, Assembly([], [], Completed)))
         == Assembly(Payload(order, net), [], Completed)
  {
    IntactPiecesAssembleSilently(order, net, h, originalFileSize, [], []);
    var payload := Payload(order, net);
    assert [] + payload == payload;
    assert |payload| == originalFileSize;
    var a := Assemble(order, net, h, originalFileSize, Assembly([], [], Completed));
    assert a == Assembly(payload, [], Completed);
  }

  /**
   Offset drift is detected: when a piece that starts in place is fetched
   with fewer bytes than it declares, its size warning is printed, and so is
   the offset warning of the next piece, which was declared to start where
   the short piece should have ended.
   */
  lemma ShortPieceIsDetected(pieces: seq<Piece>, net: Network, h: Hashers, filesize: int, contents: seq<Byte>, warnings: seq<Warning>)
    requires |pieces| >= 2
    requires pieces[0].fileOffset == |contents|
    requires pieces[1].fileOffset == pieces[0].fileOffset + pieces[0].fileSize
    requires var e := PieceEffect(net(pieces[0].url), filesize, h);
      e.outcome.Fetched? && |e.written| < pieces[0].fileSize
    ensures var r := Assemble(pieces, net, h, filesize, Assembly(contents, warnings, Completed));
      var got := |contents| + |PieceEffect(net(pieces[0].url), filesize, h).written|;
      && SizeMismatch(pieces[1].fileOffset, got) in r.warnings
      && OffsetMismatch(pieces[1].fileOffset, got) in r.warnings
  {
    var p := pieces[0];
    var e := PieceEffect(net(p.url), filesize, h);
    var grown := contents + e.written;
    var checks := PieceChecks(p, |grown|, e.outcome.digests);
    var warned := warnings + OffsetCheck(p, |contents|) + checks;
    var r := Assemble(pieces, net, h, filesize, Assembly(contents, warnings, Completed));
    assert r == Assemble(pieces[1..], net, h, filesize, Assembly(grown, warned, Completed));
    PieceWarningsPrinted(pieces[1..], net, h, filesize, grown, warned);
    var size := SizeMismatch(pieces[1].fileOffset, |grown|);
    var offset := OffsetMismatch(pieces[1].fileOffset, |grown|);
    assert OffsetCheck(pieces[1..][0], |grown|) == [offset];
    assert warned + [offset] <= r.warnings;
    assert checks[0] == size;
    assert warned[|warnings|] == size;
    assert r.warnings[|warnings|] == size && r.warnings[|warned|] == offset;
  }

  /** The bytes "abc" and "def". */
  const Abc: seq<Byte> := [0x61, 0x62, 0x63]
  const Def: seq<Byte> := [0x64, 0x65, 0x66]

  /**
   A two-piece download: piece A at offset 0 declares the SHA-1 of "abc"
   and is served "abc", piece B at offset 3 declares the SHA-256 of "def"
   and is served "def", and the original size is 6. Whatever order the sort
   produces, the file holds "abcdef" and no warning is printed.
   */
  lemma TwoPieceDownload(net: Network, h: Hashers, order: seq<Piece>)
    requires net("A") == Served([Delivery(Abc, EOF)]) && net("B") == Served([Delivery(Def, EOF)])
    requires var m := [Piece("A", 0, 3, h.sha1(Abc)), Piece("B", 3, 3, h.sha256(Def))];
      SortedByOffset(order) && multiset(order) == multiset(m)
    ensures Finish(6, Assemble(order, net, h, 6, Assembly([], [], Completed))) == Assembly(Abc + Def, [], Completed)
  {
    var a, b := Piece("A", 0, 3, h.sha1(Abc)), Piece("B", 3, 3, h.sha256(Def));
    assert |order| == |multiset(order)| == 2;
    assert order[0] in multiset(order) && order[1] in multiset(order);
    assert order == [a, b];
    EqualFoldIsEquivalence(h.sha1(Abc), h.sha1(Abc), h.sha1(Abc));
    EqualFoldIsEquivalence(h.sha256(Def), h.sha256(Def), h.sha256(Def));
    assert ServedIntact(order[0], net, h, 6);
    assert ServedIntact(order[1], net, h, 6);
    assert Contiguous(order[1..][1..], 6);
    assert TotalSize(order[1..][1..]) == 0;
    assert TotalSize(order) == 6;
    CleanDownload(order, 6, net, h);
    assert Payload(order[1..][1..], net) == [];
  }

  /** What fetching the manifest yields: the decoded document or the error. */
  datatype ManifestResult = ManifestOk(manifest: Manifest) | ManifestError(msg: string)

  /** How a run of the program ends. */
  datatype RunOutcome =
    | UsageShown
    | NamePanicked
    | ManifestFailed(msg: string)
    | Ran(filename: string, order: seq<Piece>, result: Assembly)

  /**
   `main` with the `-o` value and the remaining arguments given, and the
   manifest fetch and the network as functions. Without an argument the
   usage is shown; a default name that cannot be sliced panics before the
   manifest is requested; a manifest error stops the run. Otherwise the
   file is created, the pieces are sorted by offset and assembled, and the
   final size check is made.
   */
  method Run(output: string, args: seq<string>, fetchManifest: string -> ManifestResult, net: Network, h: Hashers)
    returns (r: RunOutcome)
    ensures args == [] <==> r == UsageShown
    ensures args != [] ==>
      var url := NormalizeUrl(args[0]);
      && (r == NamePanicked <==> OutputName(output, url).None?)
      && (r.ManifestFailed? <==> OutputName(output, url).Some? && fetchManifest(url).ManifestError?)
      && (r.ManifestFailed? ==> r.msg == fetchManifest(url).msg)
      && (r.Ran? <==> OutputName(output, url).Some? && fetchManifest(url).ManifestOk?)
      && (r.Ran? ==>
            var m := fetchManifest(url).manifest;
            && Some(r.filename) == OutputName(output, url)
            && SortedByOffset(r.order)
            && multiset(r.order) == multiset(m.pieces)
            && r.result == Finish(m.originalFileSize,
                                  Assemble(r.order, net, h, m.originalFileSize, Assembly([], [], Completed))))
  {
    if |args| == 0 {
      return UsageShown;
    }
    var url := NormalizeUrl(args[0]);
    var filename := OutputName(output, url);
    if filename.None? {
      return NamePanicked;
    }
    var fetched := fetchManifest(url);
    if fetched.ManifestError? {
      return ManifestFailed(fetched.msg);
    }
    var order, result := BuildPackage(fetched.manifest, net, h);
    return Ran(filename.value, order, result);
  }

  /**
   The part of `main` after the manifest is fetched: the output file is
   created empty, the pieces are sorted by offset and assembled into it,
   and the final size check is made.
   */
  method BuildPackage(manifest: Manifest, net: Network, h: Hashers) returns (order: seq<Piece>, result: Assembly)
    ensures SortedByOffset(order)
    ensures multiset(order) == multiset(manifest.pieces)
    ensures result == Finish(manifest.originalFileSize,
                             Assemble(order, net, h, manifest.originalFileSize, Assembly([], [], Completed)))
  {
    var file := new OutputFile.Create();
    var transfer := new Transfer.Start();
    var a := new Piece[|manifest.pieces|](i requires 0 <= i < |manifest.pieces| => manifest.pieces[i]);
    assert a[..] == manifest.pieces;
    SortByOffset(a);
    order := a[..];
    var warnings, status := AssemblePieces(order, net, h, manifest.originalFileSize, file, transfer);
    if status == Completed {
      var offset := file.SeekEnd();
      if offset != manifest.originalFileSize {
        warnings := warnings + [FileSizeMismatch(manifest.originalFileSize, offset)];
      }
    }
    result := Assembly(file.contents, warnings, status);
  }
}
