/**
  The cases of the repository's table-driven test, stated as lemmas: each
  content is classified in memory, through a reader that hands it out 1024
  bytes at a time, and through previews of two different sizes.
*/
module Scenarios {
  import opened Prelude
  import opened Utf8
  import opened Io
  import opened IsPlaintextFile

  /** The bytes of an ASCII string. */
  function Ascii(s: string): (r: seq<byte>)
    requires forall i | 0 <= i < |s| :: s[i] as int < 0x80
    ensures |r| == |s| && forall i | 0 <= i < |s| :: r[i] == s[i] as int
  {
    seq(|s|, i requires 0 <= i < |s| => s[i] as int)
  }

  /** Printable ASCII text and line feeds are plaintext. */
  lemma PrintableIsPlaintext(s: string)
    requires forall i | 0 <= i < |s| :: ' ' <= s[i] <= '~' || s[i] == '\n'
    ensures Plaintext(Ascii(s))
  {
    AsciiTextIsPlaintext(Ascii(s));
  }

  /**
    `bytes.NewReader(content)` read through a 1024-byte buffer: full chunks,
    then what is left, then EOF.
  */
  function BytesReader(content: seq<byte>): (s: Script)
    ensures WellBehaved(s) && !Fails(s) && Delivered(s) == content
    decreases |content|
  {
    if content == [] then []
    else
      var n := if |content| < ChunkSize then |content| else ChunkSize;
      var t := BytesReader(content[n..]);
      PrependOkRead(content[..n], t);
      assert content == content[..n] + content[n..];
      [ReadResult(content[..n], Ok)] + t
  }

  /** A read that reports nothing, put in front of a reader, adds its chunk to what the reader delivers. */
  lemma PrependOkRead(chunk: seq<byte>, t: Script)
    requires |chunk| <= ChunkSize && WellBehaved(t) && !Fails(t)
    ensures var s := [ReadResult(chunk, Ok)] + t;
      WellBehaved(s) && !Fails(s) && Delivered(s) == chunk + Delivered(t)
  {
    var s := [ReadResult(chunk, Ok)] + t;
    assert s[1..] == t;
    StopUnfold(s);
  }

  /**
    One row of the test table passes: `Bytes` and `Reader` give the unlimited
    answer, `ReaderPreview` with the row's limit (or, for a zero limit, just
    enough kilobytes to cover the content) gives the limited answer, and
    `ReaderPreview` with a limit of `len(content) + 10` gives the unlimited one.
  */
  predicate PassesTestCase(content: seq<byte>, unlimitedExpected: bool, limitedExpected: bool, limitKB: int) {
    var limit := if limitKB == 0 then (|content| + 1023) / 1024 else limitKB;
    var reader := BytesReader(content);
    && Answer(Plaintext(content), None) == Answer(unlimitedExpected, None)
    && ReaderVerdict(reader) == Answer(unlimitedExpected, None)
    && PreviewVerdict(reader, limit) == Answer(limitedExpected, None)
    && PreviewVerdict(reader, |content| + 10) == Answer(unlimitedExpected, None)
  }

  /** The default limit of the test, `(len + 1023) / 1024` kilobytes, covers the content. */
  lemma DefaultLimitCovers(len: nat)
    requires len > 0
    ensures var limit := (len + 1023) / 1024; limit >= 1 && len <= limit * 1024
  {
    var limit := (len + 1023) / 1024;
    assert len + 1023 < (limit + 1) * 1024;
  }

  /** A row whose content fits in the preview passes when its two expectations are the classifier's verdict. */
  lemma PassesWhenPreviewCoversContent(content: seq<byte>, expected: bool)
    requires content != [] && Plaintext(content) == expected
    ensures PassesTestCase(content, expected, expected, 0)
  {
    var reader := BytesReader(content);
    var limit := (|content| + 1023) / 1024;
    DefaultLimitCovers(|content|);
    assert !Fails(reader) && Delivered(reader) == content;
    assert ReaderVerdict(reader) == Answer(expected, None);
    assert PreviewVerdict(reader, limit) == Answer(expected, None) by {
      PreviewOfShortStream(reader, limit);
    }
    assert PreviewVerdict(reader, |content| + 10) == Answer(expected, None) by {
      PreviewOfShortStream(reader, |content| + 10);
    }
  }

  lemma PlainAsciiText()
    ensures PassesTestCase(Ascii("Hello, World!\n"), true, true, 0)
  {
    var content := Ascii("Hello, World!\n");
    AsciiTextIsPlaintext(content);
    PassesWhenPreviewCoversContent(content, true);
  }

  /** `b` is the UTF-8 encoding of `cp`, read off by decoding `b`. */
  lemma EncodesAs(b: seq<byte>, cp: int)
    requires DecodeFirst(b) == Some(Rune(cp, |b|))
    ensures IsScalarValue(cp) && EncodeRune(cp) == b
  {
    EncodingOfDecoded(b);
  }

  lemma TextWithEmoji()
    ensures EncodeRune(0x1F44B) == [0xF0, 0x9F, 0x91, 0x8B]
    ensures EncodeRune(0x1F30D) == [0xF0, 0x9F, 0x8C, 0x8D]
    ensures PassesTestCase(Ascii("Hello ") + EncodeRune(0x1F44B) + Ascii(" World! ") + EncodeRune(0x1F30D) + Ascii("\n"), true, true, 0)
  {
    EncodesAs([0xF0, 0x9F, 0x91, 0x8B], 0x1F44B);
    EncodesAs([0xF0, 0x9F, 0x8C, 0x8D], 0x1F30D);
    var content := Ascii("Hello ") + EncodeRune(0x1F44B) + Ascii(" World! ") + EncodeRune(0x1F30D) + Ascii("\n");
    assert Plaintext(content) by {
      EmojiGreetingIsPlaintext();
    }
    PassesWhenPreviewCoversContent(content, true);
  }

  lemma GreetingWordsArePlaintext()
    ensures var a, b, c := Ascii("Hello "), Ascii(" World! "), Ascii("\n");
      Plaintext(a) && Plaintext(b) && Plaintext(c)
  {
    PrintableIsPlaintext("Hello ");
    PrintableIsPlaintext(" World! ");
    PrintableIsPlaintext("\n");
  }

  /** "Hello 👋 World! 🌍\n" is plaintext: ASCII text and two encoded pictographs. */
  lemma EmojiGreetingIsPlaintext()
    ensures Plaintext(Ascii("Hello ") + EncodeRune(0x1F44B) + Ascii(" World! ") + EncodeRune(0x1F30D) + Ascii("\n"))
  {
    var a, b, c := Ascii("Hello "), Ascii(" World! "), Ascii("\n");
    var wave, globe := EncodeRune(0x1F44B), EncodeRune(0x1F30D);
    GreetingWordsArePlaintext();
    EncodedRuneIsPlaintext(0x1F44B);
    EncodedRuneIsPlaintext(0x1F30D);
    PlaintextAppend(a, wave);
    PlaintextAppend(a + wave, b);
    PlaintextAppend(a + wave + b, globe);
    PlaintextAppend(a + wave + b + globe, c);
  }

  /** The UTF-8 bytes of "你好，". */
  lemma ChineseGreetingBytes()
    ensures EncodeAll([0x4F60, 0x597D, 0xFF0C]) == [0xE4, 0xBD, 0xA0, 0xE5, 0xA5, 0xBD, 0xEF, 0xBC, 0x8C]
  {
    EncodesAs([0xE4, 0xBD, 0xA0], 0x4F60);
    EncodesAs([0xE5, 0xA5, 0xBD], 0x597D);
    EncodesAs([0xEF, 0xBC, 0x8C], 0xFF0C);
    var head := [0x4F60, 0x597D, 0xFF0C];
    assert head[1..] == [0x597D, 0xFF0C] && head[2..] == [0xFF0C] && head[3..] == [];
    var e2 := EncodeAll(head[2..]);
    assert e2 == [0xEF, 0xBC, 0x8C] by {
      assert e2 == EncodeRune(0xFF0C) + EncodeAll(head[3..]);
    }
    var e1 := EncodeAll(head[1..]);
    assert e1 == [0xE5, 0xA5, 0xBD] + [0xEF, 0xBC, 0x8C];
    assert EncodeAll(head) == [0xE4, 0xBD, 0xA0] + e1;
  }

  /** "你好，世界！\n" */
  lemma TextWithChineseCharacters()
    ensures PassesTestCase(EncodeAll([0x4F60, 0x597D, 0xFF0C, 0x4E16, 0x754C, 0xFF01, 0x0A]), true, true, 0)
  {
    var cps := [0x4F60, 0x597D, 0xFF0C, 0x4E16, 0x754C, 0xFF01, 0x0A];
    assert AllScalar(cps) && AllAcceptable(cps);
    PlaintextIff(EncodeAll(cps));
    PassesWhenPreviewCoversContent(EncodeAll(cps), true);
  }

  lemma BinaryContent()
    ensures PassesTestCase([0x00, 0x01, 0x02, 0x03], false, false, 0)
  {
    ControlByteRejects([0x00, 0x01, 0x02, 0x03], 0);
    PassesWhenPreviewCoversContent([0x00, 0x01, 0x02, 0x03], false);
  }

  lemma TextWithControlCharacters()
    ensures PassesTestCase(Ascii("Hello") + [0x07], false, false, 0)
  {
    var content := Ascii("Hello") + [0x07];
    ControlByteRejects(content, 5);
    PassesWhenPreviewCoversContent(content, false);
  }

  lemma LargeTextFile()
    ensures var line := Ascii("Large plain text content\n");
      PassesTestCase(seq(1000 * |line|, i requires 0 <= i < 1000 * |line| => line[i % |line|]), true, true, 0)
  {
    var line := Ascii("Large plain text content\n");
    var content := seq(1000 * |line|, i requires 0 <= i < 1000 * |line| => line[i % |line|]);
    AsciiTextIsPlaintext(content);
    PassesWhenPreviewCoversContent(content, true);
  }

  /** 1 KB of text followed by binary bytes: the whole is not plaintext, its first kilobyte is. */
  lemma PartialBinaryAfterLimit()
    ensures PassesTestCase(seq(1024, _ => 'A' as int) + [0x00, 0x01, 0x02, 0x03], false, true, 1)
  {
    var valid := seq(1024, _ => 'A' as int);
    var content := valid + [0x00, 0x01, 0x02, 0x03];
    var reader := BytesReader(content);
    AsciiTextIsPlaintext(valid);
    ControlByteRejects(content, 1024);
    PreviewClassifiesPrefix(reader, 1);
    assert Prefix(content, 1024) == valid;
    PreviewOfShortStream(reader, |content| + 10);
  }

  // ----- Cases the test table does not cover -----

  /** A zero limit is rejected, with `true` beside the error, whatever the reader. */
  lemma ZeroLimitIsInvalid(s: Script)
    ensures PreviewVerdict(s, 0) == Answer(true, Some(InvalidLength))
  {
  }

  /** The bytes that come with EOF are classified too. */
  lemma BytesWithEofAreKept()
    ensures ReaderVerdict([ReadResult(Ascii("Hi"), Ok), ReadResult([0x07], Eof)]) == Answer(false, None)
  {
    var s := [ReadResult(Ascii("Hi"), Ok), ReadResult([0x07], Eof)];
    StopUnfold(s);
    assert s[1..][..0] == [];
    assert Delivered(s) == Ascii("Hi") + [0x07];
    ControlByteRejects(Delivered(s), 2);
  }

  /** A failed read is reported as it is, whatever was read before it. */
  lemma ReadErrorIsPassedOn()
    ensures ReaderVerdict([ReadResult(Ascii("Hi"), Ok), ReadResult([], Fail(IoError(5)))])
      == Answer(false, Some(ReadError(IoError(5))))
  {
    var s := [ReadResult(Ascii("Hi"), Ok), ReadResult([], Fail(IoError(5)))];
    StopUnfold(s);
  }

  /** Sequences that RFC 3629 forbids: overlong, surrogate, above U+10FFFF, truncated. */
  lemma IllFormedIsNotPlaintext()
    ensures !Plaintext([0xC0, 0x80])
    ensures !Plaintext([0xE0, 0x80, 0x80])
    ensures !Plaintext([0xED, 0xA0, 0x80])
    ensures !Plaintext([0xF4, 0x90, 0x80, 0x80])
    ensures !Plaintext([0xE4, 0xBD])
  {
  }
}
