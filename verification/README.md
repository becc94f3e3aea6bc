# isplaintextfile, modelled in Dafny

The Go package `isplaintextfile` decides whether some content is
plaintext. Content is plaintext when it is well-formed UTF-8 and none of
its code points is a control character below 32, except newline, carriage
return and tab. The content can come from a byte slice (`Bytes`), from an
`io.Reader` read to its end (`Reader`), or from a reader limited to its
first `maxKB` kilobytes (`ReaderPreview`).

The project has five modules:

- `Prelude` (prelude.dfy): the `byte` type and `Option`.
- `Utf8` (utf8.dfy): the UTF-8 encoding form of section 3 of RFC 3629. It has an encoder (`EncodeRune`, `EncodeAll`), and a decoder whose accepted byte ranges are those of the same section. Go's `utf8.DecodeRune` and `utf8.Valid` are written on top of that decoder. The lemmas prove that the decoder and the encoder are inverse to each other.
- `Io` (io.dfy): a reader, given as the list of its reads' outcomes (a chunk plus `Ok`, `Eof` or `Fail(err)`). It also has `io.LimitReader` as a function on such lists, and the proof that a limited reader delivers a prefix of what the reader delivers.
- `IsPlaintextFile` (isplaintextfile.dfy):
  - the specification predicate `Plaintext`;
  - the two loops of the source as methods with loop invariants (`IsBufferPlaintext`, the scan with a `pos` cursor, and `IsPlaintextFromReader`, which reads into a 1024-byte array and appends to a growing buffer);
  - the entry points `Bytes`, `Reader` and `ReaderPreview`;
  - lemmas on what their answers mean.
- `Scenarios` (isplaintextfile_test.dfy): the rows of the repository's table-driven test, each proved as a lemma. There are also a few cases the table does not cover.

A reader is a value. Once its list of reads is used up, every further
read delivers nothing and reports EOF. A Go `(bool, error)` result is the
datatype `Answer`.

## Model

| member | source | states |
|---|---|---|
| Utf8.EncodeRune | isplaintextfile.go:12 | the encoding of a scalar value has the length of RFC 3629's table; its lead byte is not a continuation byte and all later bytes are |
| Utf8.DecodeFirst | isplaintextfile.go:12 | a decoded sequence has the length its lead byte announces and yields a scalar value; a buffer shorter than its lead byte announces does not decode |
| Utf8.DecodeRune | isplaintextfile.go:18 | `utf8.DecodeRune`: (RuneError, 0) on empty input; otherwise a width between 1 and the input length; on a well-formed start, the value and exactly the bytes that encode it |
| Utf8.DecodeAll | isplaintextfile.go:12 | a successful decoding yields scalar values, at most one per byte |
| Utf8.Valid | isplaintextfile.go:12 | `utf8.Valid`: the whole buffer decodes as well-formed UTF-8 (its meaning as "is the encoding of scalar values" is `Utf8.ValidIffEncoding`) |
| Utf8.DecodeOfEncoded | isplaintextfile.go:12 | decoding the encoding of any scalar value returns that value and its length, whatever bytes follow |
| Utf8.EncodingOfDecoded | isplaintextfile.go:12 | whatever the decoder accepts is exactly the encoding of the value it returns (no overlong forms, surrogates or values above U+10FFFF get through) |
| Utf8.DecodeAllOfEncodeAll | isplaintextfile.go:12 | decoding the encoding of a sequence of scalar values gives the sequence back |
| Utf8.EncodeAllOfDecodeAll | isplaintextfile.go:12 | a valid buffer is the encoding of what it decodes to |
| Utf8.ValidIffEncoding | isplaintextfile.go:12 | `utf8.Valid` holds exactly for the encodings of sequences of scalar values |
| Utf8.DecodeAllAppend | isplaintextfile.go:12 | the decoding of two concatenated valid buffers is the concatenation of their decodings |
| Utf8.ValidCut | isplaintextfile.go:12 | a valid buffer cut after k bytes leaves a valid first part exactly when byte k is not a continuation byte; then the rest is valid too and the two decodings make up the whole decoding |
| Utf8.CutBoundary | isplaintextfile.go:12 | the same condition for the cut, by induction on the decoded sequences, and the rest after a valid first part is valid |
| Utf8.EncodeAllConcat | isplaintextfile.go:12 | encoding two sequences of scalar values one after the other gives the encoding of their concatenation |
| Utf8.EncodeAll | isplaintextfile.go:12 | the encoding of n scalar values takes between n and 4n bytes |
| Utf8.EncodeAllAppend | isplaintextfile.go:18-25 | encoding one more value appends its encoding; this is what makes the scan's re-encoding invariant hold |
| IsPlaintextFile.IsBufferPlaintext | isplaintextfile.go:11-28 | the loop's answer is `Plaintext(buffer)`; invalid UTF-8 gives false; the empty buffer gives true. The loop invariant keeps the cursor inside the buffer, the passed runes acceptable and re-encoding to the bytes before the cursor, and the verdict equal to the verdict on the rest |
| IsPlaintextFile.Acceptable | isplaintextfile.go:21 | the test that lets a rune through: at least 32, or one of `\n`, `\r`, `\t` |
| IsPlaintextFile.Plaintext | isplaintextfile.go:11-28 | what `isBufferPlaintext` answers: the buffer is valid UTF-8 and every rune it decodes to passes the test (`IsBufferPlaintext` is proved to return it; `PlaintextIff` states its meaning against the encoder) |
| IsPlaintextFile.ScanAccepts | isplaintextfile.go:17-25 | a step past an acceptable rune moves the cursor forward by at least 1 and keeps the scan invariant: the passed runes, one more, still re-encode to the bytes before the cursor and are all acceptable, and the verdict on the whole still equals the verdict on the rest |
| IsPlaintextFile.ScanRejects | isplaintextfile.go:21-23 | a control rune at the cursor of a scan that keeps the invariant means the whole buffer is not plaintext |
| IsPlaintextFile.PlaintextStep | isplaintextfile.go:18-25 | on a valid buffer, the verdict is: the first rune is acceptable and the rest is plaintext |
| IsPlaintextFile.PlaintextIff | isplaintextfile.go:11-28 | a buffer is plaintext if and only if it is the UTF-8 encoding of scalar values that are all at least 32 or `\n`, `\r`, `\t` |
| IsPlaintextFile.ControlByteRejects | isplaintextfile.go:21-23 | a single byte below 32, other than `\n`, `\r`, `\t`, anywhere in the buffer makes it not plaintext |
| IsPlaintextFile.AsciiTextIsPlaintext | isplaintextfile.go:17-27 | a buffer of ASCII bytes that are printable or `\n`, `\r`, `\t` is plaintext |
| IsPlaintextFile.EncodedRuneIsPlaintext | isplaintextfile.go:17-27 | the encoding of one acceptable scalar value is plaintext |
| IsPlaintextFile.PlaintextAppend | isplaintextfile.go:11-28 | plaintext followed by plaintext is plaintext |
| IsPlaintextFile.PlaintextCut | isplaintextfile.go:12 | cutting plaintext after k bytes leaves plaintext exactly when the cut falls between two encoded characters |
| Io.Delivered | isplaintextfile.go:35-46 | the bytes a reader delivers are all chunks before the read that ends the reading, plus that read's chunk (bytes that come with EOF or an error are kept) |
| Io.StopIndex | isplaintextfile.go:40-45 | the read that ends the reading is the first one reporting EOF or an error; every read before it reports nothing |
| Io.ReadAt | isplaintextfile.go:36 | the outcome of a reader's i-th `Read`; once the listed reads are used up, every read delivers nothing and reports EOF |
| Io.FlattenStep | isplaintextfile.go:36-39 | a read adds its chunk to the end of the bytes gathered so far |
| Io.FlattenAppend | isplaintextfile.go:36-39 | the bytes of two runs of reads, one after the other, are the bytes of the first run followed by those of the second |
| Io.StopUnfold | isplaintextfile.go:35-46 | after a first read that reports nothing, the reading ends one read later than it does on the remaining reads, fails in the same way, and has the first chunk in front of the bytes |
| Io.PrefixAppend | isplaintextfile.go:103 | the first n bytes of c followed by d, when c is no longer than n, are c followed by the first n - |c| bytes of d |
| Io.ReadingStops | isplaintextfile.go:40-45 | after reads that reported nothing, a read reporting EOF or an error is the one that ends the reading, and the reader fails exactly when it reported an error (that error) |
| Io.Prefix | isplaintextfile.go:103 | the first n bytes of a sequence: a prefix of length min(n, length), or nothing when n <= 0 |
| Io.Limit | isplaintextfile.go:103 | `io.LimitReader` never delivers more than max(n, 0) bytes in all, and each of its reads stays within 1024 bytes when the wrapped reader's reads do |
| Io.LimitStopsAtFirst | isplaintextfile.go:103 | a limited reader whose first read reports EOF or an error ends as the reader does, with the first n bytes of that read |
| Io.LimitReachedInside | isplaintextfile.go:103 | when the limit falls inside a read that reports nothing, the limited reader stops there without error, having delivered the first n bytes |
| Io.LimitPassesRead | isplaintextfile.go:103 | a read that fits under the limit passes through whole, and the relation between the limited and the unlimited reader carries over from the rest of the reads |
| Io.LimitDelivers | isplaintextfile.go:103 | a limited reader fails exactly when the reader fails before n bytes have gone by, with the same error; otherwise it delivers the first n bytes of what the reader delivers |
| IsPlaintextFile.IsPlaintextFromReader | isplaintextfile.go:31-52 | the read loop's answer is the reader's error if a read fails, else the verdict on all the bytes delivered, including those that came with EOF; a reader that delivers nothing gives (true, nil). The loop invariant is that the buffer is the concatenation of the chunks read so far |
| IsPlaintextFile.ReaderVerdict | isplaintextfile.go:31-52 | what `isPlaintextFromReader` answers: the reader's error, with false, when its reading ends in one; else the verdict on all bytes delivered (`IsPlaintextFromReader` is proved to return it) |
| IsPlaintextFile.Bytes | isplaintextfile.go:55-58 | the answer is the verdict on the buffer, and never an error |
| IsPlaintextFile.Reader | isplaintextfile.go:90-92 | the answer is that of the read loop on the same reader |
| IsPlaintextFile.ReaderPreview | isplaintextfile.go:96-105 | a zero limit gives (true, invalid length) without reading; any other limit gives the reader's error when the reader fails before `maxKB * 1024` bytes have gone by, and otherwise the verdict on the first `maxKB * 1024` bytes the reader delivers |
| IsPlaintextFile.PreviewVerdict | isplaintextfile.go:96-105 | what `ReaderPreview` answers: (true, invalid length) for a zero limit, else the answer for the reader limited to `maxKB * 1024` bytes (`PreviewClassifiesPrefix` states it in terms of the reader itself) |
| IsPlaintextFile.PreviewClassifiesPrefix | isplaintextfile.go:97-104 | for a non-zero limit, the preview reports the reader's error only when the reader fails before the limit; otherwise it reports the verdict on the first `maxKB * 1024` delivered bytes |
| IsPlaintextFile.PreviewOfShortStream | isplaintextfile.go:96-105 | when the reader delivers no more than the limit (and fails, if at all, before it), the preview answers as `Reader` does |
| IsPlaintextFile.PreviewCutsAtLimit | isplaintextfile.go:97-104 | on plaintext longer than the limit, the preview says true exactly when the limit falls between two encoded characters |
| IsPlaintextFile.PreviewOfNegativeLimit | isplaintextfile.go:97-104 | a negative `maxKB` is not rejected: the limited reader is empty and the answer is (true, nil) |
| Scenarios.BytesReader | isplaintextfile_test.go:106 | `bytes.NewReader(content)`, read 1024 bytes at a time, never fails and delivers exactly the content |
| Scenarios.PassesTestCase | isplaintextfile_test.go:86-143 | a row passes the subtests: `Bytes` and `Reader` give the unlimited expectation, `ReaderPreview` with the row's limit (or the covering default for 0) gives the limited one, and `ReaderPreview` with `len(content) + 10` gives the unlimited one |
| Scenarios.PassesWhenPreviewCoversContent | isplaintextfile_test.go:78-146 | a row whose content fits within the default limit passes all of `Bytes`, `Reader` and both `ReaderPreview` checks when the expectation is the classifier's verdict |
| Scenarios.PlainAsciiText | isplaintextfile_test.go:22-28 | "Hello, World!\n" passes as plaintext |
| Scenarios.TextWithEmoji | isplaintextfile_test.go:29-35 | the text with U+1F44B and U+1F30D (their four-byte encodings given) passes as plaintext |
| Scenarios.EmojiGreetingIsPlaintext | isplaintextfile_test.go:31 | the four-byte encodings of U+1F44B and U+1F30D between plain words are plaintext |
| Scenarios.ChineseGreetingBytes | isplaintextfile_test.go:38 | the UTF-8 bytes of U+4F60 U+597D U+FF0C are E4 BD A0 E5 A5 BD EF BC 8C |
| Scenarios.TextWithChineseCharacters | isplaintextfile_test.go:36-42 | the Chinese greeting passes as plaintext |
| Scenarios.BinaryContent | isplaintextfile_test.go:43-49 | bytes 00 01 02 03 pass as not plaintext |
| Scenarios.TextWithControlCharacters | isplaintextfile_test.go:50-56 | "Hello" followed by BEL passes as not plaintext |
| Scenarios.LargeTextFile | isplaintextfile_test.go:57-63 | a line repeated 1000 times (25 000 bytes, several reads) passes as plaintext |
| Scenarios.PartialBinaryAfterLimit | isplaintextfile_test.go:64-75 | 1024 'A' then 00..03: the whole is not plaintext, the 1 KB preview is, and the preview beyond the length is not |
| Scenarios.ZeroLimitIsInvalid | isplaintextfile.go:99-101 | `ReaderPreview` with a zero limit answers (true, invalid length), for every reader |
| Scenarios.BytesWithEofAreKept | isplaintextfile.go:37-42 | a control byte that arrives together with EOF still makes the answer false |
| Scenarios.ReadErrorIsPassedOn | isplaintextfile.go:43-45 | a read error after some text is returned as it is, with false |
| Scenarios.IllFormedIsNotPlaintext | isplaintextfile.go:12-14 | an overlong form, a surrogate, a value above U+10FFFF and a truncated sequence are each not plaintext |

## Left out

- `File` and `FilePreview` (isplaintextfile.go:61-87) are not modelled: they open a file, close it on return and delegate to the read loop. `FilePreview` opens the file before it checks `maxKB`, so an open failure wins over the zero-limit error.
- Readers are lists of read outcomes, not `io.Reader` objects. Whatever the reader does with the buffer it is handed is not modelled. A well-behaved reader delivers at most 1024 bytes per read, which is the length of the temporary buffer.
- Io.Limit: when the limit cuts a read short, the limited read keeps the status the underlying read reported. A real reader handed the shorter buffer might report a different status. The consequence: an error reported by the read that the limit cuts short is passed on by the model. An error on the read after exactly `maxKB * 1024` bytes is not passed on, because the limited reader reports EOF first, as `io.LimitReader` does.
- A modelled reader always ends: every read past its list reports EOF. A Go reader that keeps returning (0, nil), or never reports EOF, keeps the loop at isplaintextfile.go:35-46 running forever; such readers are outside the model.
- The 32 KiB capacity hint of the accumulation buffer (isplaintextfile.go:32) only affects allocation, so it is not modelled.
- Go's `int` overflow of `maxKB * 1024` and the `int64` conversion are not modelled; integers are unbounded.
- Error values are identified by a number (`IoError`). The message text of the invalid-length error is the `InvalidLength` constructor.
- The test file's temporary files and the `File`/`FilePreview` subtests (isplaintextfile_test.go:148-222) are not modelled.

The code rejects `maxKB == 0` only. A negative `maxKB` reaches `io.LimitReader`, which then delivers nothing, so the answer is (true, nil). The model follows the code (`PreviewOfNegativeLimit`).
