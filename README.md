# FetchPKG in Dafny

FetchPKG downloads a large package file that a server offers as a JSON
manifest of pieces. Each piece is a byte range of the file, served at its
own URL and declared with an offset, a size and a hash. The program
rewrites a package URL into its manifest URL and picks an output name.
It fetches the manifest, sorts the pieces by offset, and appends each
piece's body to the output file in 5 MiB chunks while computing a SHA-1
and a SHA-256 digest. Around every piece it compares the file length and
the digests with the manifest. A mismatch only prints a warning, while a
failed request or body read ends the run.

This project models that core in Dafny:

- `text.dfy` (module `Text`): `strings.HasSuffix` and `strings.EqualFold`, the latter for ASCII.
- `naming.dfy` (module `Naming`): the URL rewrite, `filepath.Base`, and the output file name.
- `pieces.dfy` (module `Pieces`): the manifest and its pieces, and the sort by offset, an in-place sort of an array.
- `transport.dfy` (module `Transport`): a response body as the sequence of deliveries a reader sees, and one `Read` into the 5 MiB buffer.
- `fetch.dfy` (module `Fetch`): the output file and the shared byte counter as classes, the progress percentage, and `fetchPiece`'s chunk loop. The loop is proved against `BodyEffect`, a description of the whole body's effect.
- `assembly.dfy` (module `Assembly`): the piece loop with its warnings, the final size check and `main`. All are proved against the function `Assemble`, with lemmas about what the warnings mean.

The network, the manifest fetch and the two digest algorithms are
parameters: `net` maps a URL to a response, `fetchManifest` maps a URL to a
decoded manifest or an error, and `Hashers` holds the two digest functions.

## Model

| member | source | states |
|---|---|---|
| Naming.NormalizeUrl | main.go:113-120 | a URL ending in `_sc.pkg`, `-DP.pkg` or `_0.pkg` becomes a shorter URL ending in `.json`; any other URL is unchanged |
| Naming.NormalizeReplacesSuffix | main.go:114-119 | stem + package suffix is rewritten to exactly stem + `.json`, for each of the three suffixes |
| Naming.NormalizeIdempotent | main.go:113-120 | rewriting a rewritten URL changes nothing |
| Naming.TrimTrailingSlashes | main.go:126 | the result is a prefix of the path, does not end in `/`, and only `/` characters were removed |
| Naming.LastElement | main.go:126 | the result is a suffix of the path without `/`, preceded by `/` unless it is the whole path |
| Naming.Base | main.go:126 | `filepath.Base` is never empty and is either `/` or free of separators; an empty path gives `.`, a path of only slashes gives `/`, and otherwise the result is the last element once trailing slashes are removed |
| Naming.BaseOfPath | main.go:126 | the base name of `dir/name` is `name` |
| Naming.OutputName | main.go:122-127 | a non-empty `-o` value is the name; otherwise the name exists exactly when the base name is at least 4 long (counted in characters), and it then ends in `pkg`, has no separator, is one shorter than the base name and keeps all but the base name's last 4 characters as its stem |
| Naming.DefaultNameOfManifest | main.go:126 | without `-o`, `DIR/STEM.json` is saved as `STEM.pkg` |
| Naming.DefaultNameOfPackageUrl | main.go:113-127 | without `-o`, `DIR/STEM` + package suffix is fetched as `DIR/STEM.json` and saved as `STEM.pkg` |
| Text.EndsWith | main.go:114-118 | a string that ends with a suffix is at least as long and is its own prefix followed by that suffix |
| Text.EndsWithAppend | main.go:114-118 | any stem followed by a suffix ends with that suffix |
| Text.EqualFold | main.go:176 | two strings that match case-insensitively have the same length and fold to the same character at every position |
| Text.EqualFoldIsLowerEquality | main.go:176 | two strings match case-insensitively exactly when their lower-case forms are equal |
| Text.EqualFoldIsEquivalence | main.go:176 | case-insensitive matching is reflexive, symmetric and transitive |
| Pieces.SortByOffset | main.go:144-147 | afterwards the array is sorted by file offset and is a permutation of what it held |
| Pieces.InsertLast | main.go:145-147 | inserting the next element keeps the prefix sorted and the array a permutation |
| Pieces.Swap | main.go:145-147 | exchanges two elements and leaves every other one unchanged, so the multiset is kept |
| Pieces.OffsetsPermutation | main.go:145-147 | permuted pieces have the same multiset of offsets |
| Pieces.AscendingUnique | main.go:145-147 | two ascending sequences with the same multiset are equal |
| Pieces.SortedOffsetsAgree | main.go:145-147 | any two sorted permutations of the pieces list the same offsets in the same order, although the sort is not stable |
| Transport.ReadChunk | main.go:71-73 | a read hands out at most 5 MiB, and a read without an error shrinks what is left of the body |
| Transport.FirstChunk | main.go:71-74 | the first non-empty chunk is at most 5 MiB, is a prefix of everything received, and is empty only if nothing is received |
| Transport.ReadChunkStep | main.go:72-94 | a read takes the next part of what is received and passes the rest and the stream's ending on to later reads; a non-empty read is the first chunk of the body |
| Transport.SplitRead | main.go:71-73 | a delivery larger than the buffer is split, and its tail and its error stay at the front of the body |
| Transport.ConsumeStep | main.go:72-94 | a read without an error moves its bytes from what is left to what is consumed |
| Transport.ConsumeLast | main.go:88-93 | the read that ends the stream completes what is received and carries the stream's ending |
| Transport.ConsumeFirst | main.go:72-83 | while nothing has been consumed, the first non-empty read is the body's first chunk |
| Fetch.OutputFile.Create | main.go:136 | a newly created output file is empty |
| Fetch.Transfer.Start | main.go:143 | the shared byte counter starts at 0 |
| Fetch.OutputFile.Write | main.go:75 | an append adds exactly the data at the end of the file |
| Fetch.OutputFile.SeekEnd | main.go:150 | seeking to the end gives the file length |
| Fetch.TruncDiv | main.go:83 | Go's integer division truncates toward zero: the magnitude of the quotient is the floor of the magnitudes' quotient, and a non-zero quotient is positive exactly when the operands have the same sign |
| Fetch.Progress | main.go:83 | for a positive file size and a non-negative total, the percentage is the floor of 100 · total / filesize; it lies in 0..100 while 0 <= total <= filesize |
| Fetch.ProgressMonotone | main.go:80-83 | the percentage never decreases while the counter grows |
| Fetch.BodyEffect | main.go:67-99 | everything received is appended; the piece succeeds, with the digests of exactly those bytes, iff the stream ends normally and the file size is not 0 (or nothing is received); a stream that ends in a read error with a non-zero file size (or nothing received) appends everything received and fails with that error; a file size of 0 with something received appends the first chunk and panics on the division |
| Transport.FirstErrorEndsStream | main.go:72-94 | after error-free deliveries, the first delivery with an error ends the stream: what is received stops with its bytes and the stream ends with its error, whatever follows |
| Fetch.DataWithErrorIsWritten | main.go:73-93 | bytes delivered before and together with a read error are appended, nothing after them, and the read error is returned |
| Fetch.PieceEffect | main.go:53-99 | a failed request appends nothing and fails with the request error; whatever is appended is a prefix of the bytes received; the piece succeeds exactly when the stream ends normally and the file size is not 0 (or nothing is received), and then it appended everything received and returns the digests of exactly those bytes |
| Fetch.CopyStep | main.go:72-94 | one read of the chunk loop keeps the loop state, or ends the loop with the effect BodyEffect states |
| Fetch.CopyBody | main.go:67-99 | the chunk loop appends exactly BodyEffect's bytes, raises the counter by their number, and returns BodyEffect's outcome |
| Fetch.FetchPiece | main.go:53-99 | fetchPiece leaves the file, the counter and the result as PieceEffect of the response says |
| Assembly.HashAccepted | main.go:176 | a declared hash can only be accepted when it is as long as one of the two digests |
| Assembly.OffsetCheck | main.go:156-158 | no warning exactly when the file ends at the piece's offset; otherwise exactly one offset warning naming the declared and the actual offset |
| Assembly.PieceChecks | main.go:172-178 | a size warning exactly when the file does not end at offset + size; exactly one hash warning when the declared hash matches neither digest and none otherwise; nothing else, and no warning exactly when both checks pass; the list holds exactly that many warnings, the size warning names the expected end and the actual length, and the hash warning names the declared hash and the SHA-1 digest |
| Assembly.CheckPiece | main.go:150-178 | one piece appends its download and the loop continues exactly when the download succeeded; a failed piece adds only its offset warning, a fetched one adds its offset warning followed by its size and hash warnings |
| Assembly.CleanPieceIsSilent | main.go:150-178 | a piece fetched in place, with its declared length and a matching hash, adds no warning and lets the loop continue |
| Assembly.OffsetWarningExactly | main.go:156-158 | a pass adds the offset warning exactly when the file does not end at the piece's offset, whatever the download does |
| Assembly.SizeWarningExactly | main.go:166-174 | a fetched piece adds the size warning exactly when the file does not end at its offset + size |
| Assembly.HashWarningExactly | main.go:176-178 | a fetched piece adds exactly one hash warning when its declared hash matches neither digest, and none when it matches one |
| Assembly.HashWarningsAppend | main.go:176-178 | the hash warnings of two warning lists add up |
| Assembly.FailedPieceUnchecked | main.go:160-164 | a piece whose download fails adds no size or hash warning, only possibly its offset warning |
| Assembly.Assemble | main.go:149-179 | the piece loop only grows the file and never removes a printed warning |
| Assembly.Finish | main.go:181-189 | the final check keeps file and status, and adds a warning exactly when the loop completed and the file length differs from the original size, and that warning is the one file-size warning naming the original size and the file length |
| Assembly.AssemblePiece | main.go:150-178 | the loop body leaves file, warnings and status as CheckPiece says, and raises the counter by the bytes appended |
| Assembly.AssemblePieces | main.go:149-179 | the loop leaves file, warnings and status as Assemble says, and raises the counter by the bytes appended |
| Assembly.PieceWarningsPrinted | main.go:156-178 | a piece's offset warning, and once it is fetched its size and hash warnings, stay among the printed warnings |
| Assembly.WarningsAreNonFatal | main.go:149-179 | file contents and final status equal those of the downloads with every check removed |
| Assembly.SilentRunIsContiguous | main.go:149-179 | a loop that completes without a warning had pieces that tile the file from its start, and grew it by their total declared size |
| Assembly.IntactPiecesAssembleSilently | main.go:149-179 | contiguous pieces that are all served intact are appended one after the other, with no warning |
| Assembly.CleanDownload | main.go:144-189 | contiguous, intact pieces from offset 0 whose sizes add up to the original size give exactly the served bytes and no warning at all |
| Assembly.ShortPieceIsDetected | main.go:156-174 | a piece shorter than declared produces its size warning and the next piece's offset warning |
| Assembly.TwoPieceDownload | main.go:144-189 | pieces serving "abc" at 0 and "def" at 3, hashed by SHA-1 and by SHA-256 respectively, give "abcdef" and no warning |
| Assembly.HashAcceptedIsLowerEquality | main.go:176 | a declared hash is accepted exactly when it equals one of the two digests after lower-casing |
| Assembly.BuildPackage | main.go:136-189 | after the manifest is fetched, the pieces are sorted by offset (a permutation of the manifest's) and the result is Finish of Assemble over them, starting from an empty file |
| Assembly.Run | main.go:102-189 | no argument shows the usage; a default base name shorter than 4 (in characters) panics; a manifest error stops the run; otherwise the pieces are sorted by offset and the result is Finish of Assemble over them, starting from an empty file |

## Left out

- HTTP requests, the `User-Agent` header and response closing are left out. A request and its body are the `net` parameter: a request or transport error becomes `Refused`, and a body becomes a sequence of deliveries.
- JSON decoding of the manifest is left out. `fetchManifest` is a parameter that returns a decoded `Manifest` or an error message.
- The SHA-1 and SHA-256 algorithms and their hexadecimal formatting are left out. They are the two functions in `Hashers`.
- Elapsed time, throughput in MiB/s and all floating-point arithmetic are left out. They only feed printed text.
- Printing is left out. The progress line is computed (`Progress`) but not rendered. The warnings are recorded as values, in order. The usage text, the error messages and the completion summary are not modelled.
- Flag parsing is left out. `Run` receives the `-o` value and the remaining arguments.
- Exit codes are left out. `os.Exit(1)` (usage, manifest error, failed piece) becomes the `UsageShown` and `ManifestFailed` outcomes and the `PieceFailed` status. The slice of a short default name and the division by a file size of 0 are Go runtime panics instead: deferred calls run and the process exits with status 2. They become the `NamePanicked` outcome and the `Panicked` status.
- Bodies are finite sequences of deliveries. A stream that never ends or stalls forever, which hangs the chunk loop because there is no time-out (main.go:72-94), is not expressible.
- Failures of `os.Create`, `Write` and `Seek` on the local file are left out. The output file always accepts appends, so those error paths are not modelled.
- 64-bit overflow of offsets, sizes, the byte counter and `100 * totalBytes` is left out. Integers are unbounded.
- Naming.Base: models `filepath.Base` on Unix only, with `/` as the only separator. It does not model Windows volume names or `\`.
- Text.EqualFold: models `strings.EqualFold` for ASCII only. Unicode simple folding (such as `K` and the Kelvin sign) is not modelled, because a hexadecimal digest is ASCII.
- Pieces.SortByOffset: models `sort.Slice` as an insertion sort with the same postcondition: sorted by offset and a permutation. Which of several pieces with equal offsets comes first is left open, as it is in `sort.Slice`.
- Transport.ReadChunk: models a read from a body that is larger than the buffer as handing out exactly 5 MiB. A real reader may hand out less. Once the deliveries are used up, every further read reports end of stream.
- Naming.OutputName: counts lengths and the 4-element slice in characters, while Go counts UTF-8 bytes. The two can differ only when one of the base name's last four characters (all of them, for a shorter name) is not ASCII. For a non-ASCII base name such as the one of `http://h/ééé` (3 characters, 6 bytes), Go slices off 4 bytes and the model panics instead.
