/**
  The plaintext classifier: a buffer is plaintext when it is well-formed UTF-8
  and contains no control character other than newline, carriage return and
  tab. Around it, the accumulation of a reader's chunks into one buffer, and
  the entry points `Bytes`, `Reader` and `ReaderPreview`.
*/
module IsPlaintextFile {
  import opened Prelude
  import opened Utf8
  import opened Io

  // ----- The classifier -----

  /** A code point the classifier lets through: anything from 32 up, and `\n`, `\r`, `\t`. */
  predicate Acceptable(cp: int) {
    !(cp < 32 && cp != '\n' as int && cp != '\r' as int && cp != '\t' as int)
  }

  predicate AllAcceptable(cps: seq<int>) {
    forall i | 0 <= i < |cps| :: Acceptable(cps[i])
  }

  /** The verdict on a buffer: it decodes as UTF-8 and every code point it decodes to is acceptable. */
  predicate Plaintext(b: seq<byte>) {
    match DecodeAll(b)
    case None => false
    case Some(cps) => AllAcceptable(cps)
  }

  /**
    `isBufferPlaintext`: rejects a buffer that is not valid UTF-8, then walks
    it one rune at a time and stops at the first unacceptable code point.
  */
  method IsBufferPlaintext(buffer: seq<byte>) returns (ok: bool)
    ensures ok == Plaintext(buffer)
    ensures !Valid(buffer) ==> !ok
    ensures buffer == [] ==> ok
  {
    if !Valid(buffer) {
      return false;
    }

    var pos := 0;
    ghost var seen: seq<int> := [];
    while pos < |buffer|
      invariant Scanning(buffer, pos, seen)
      decreases |buffer| - pos
    {
      var rn := DecodeRune(buffer[pos..]);
      var r, size := rn.cp, rn.size;

      if r < 32 && r != '\n' as int && r != '\r' as int && r != '\t' as int {
        ScanRejects(buffer, pos, seen);
        return false;
      }
      ScanAccepts(buffer, pos, seen);

      seen := seen + [r];
      pos := pos + size;
    }
    assert buffer[pos..] == [];
    return true;
  }

  lemma AllAcceptableCons(cp: int, rest: seq<int>)
    ensures AllAcceptable([cp] + rest) <==> Acceptable(cp) && AllAcceptable(rest)
  {
    var all := [cp] + rest;
    assert all[0] == cp;
    assert forall i | 0 <= i < |rest| :: all[i + 1] == rest[i];
    if Acceptable(cp) && AllAcceptable(rest) {
      forall i | 0 <= i < |all|
        ensures Acceptable(all[i])
      {
        if i > 0 {
          assert all[i] == rest[i - 1];
        }
      }
    }
  }

  /** One step of the scan: the first code point of a well-formed buffer, then the rest. */
  lemma PlaintextStep(b: seq<byte>)
    requires Valid(b) && b != []
    ensures var rn := DecodeRune(b);
      && DecodeFirst(b) == Some(rn)
      && 1 <= rn.size <= |b|
      && Valid(b[rn.size..])
      && (Plaintext(b) <==> Acceptable(rn.cp) && Plaintext(b[rn.size..]))
  {
    DecodeAllStep(b);
    var rn := DecodeFirst(b).value;
    var rest := DecodeAll(b[rn.size..]).value;
    assert DecodeAll(b).value == [rn.cp] + rest;
    AllAcceptableCons(rn.cp, rest);
  }

  /**
    The loop invariant of `IsBufferPlaintext`: the cursor is inside the
    buffer, what is left from it is well-formed, the runes passed so far are
    all acceptable and re-encode to exactly the bytes before the cursor, and
    the verdict on the whole buffer is the verdict on what is left.
  */
  ghost predicate Scanning(buffer: seq<byte>, pos: nat, seen: seq<int>) {
    && pos <= |buffer|
    && Valid(buffer[pos..])
    && Passed(buffer, pos, seen)
    && (Plaintext(buffer) <==> Plaintext(buffer[pos..]))
  }

  /** The runes passed so far are acceptable and re-encode to exactly the bytes before the cursor. */
  ghost predicate Passed(buffer: seq<byte>, pos: nat, seen: seq<int>)
    requires pos <= |buffer|
  {
    AllScalar(seen) && EncodeAll(seen) == buffer[..pos] && AllAcceptable(seen)
  }

  /**
    One iteration of the scan that passes a rune: the rune decoded at `pos`
    is acceptable, moves the cursor forward inside the buffer, and the
    invariant holds at the new cursor.
  */
  lemma ScanAccepts(buffer: seq<byte>, pos: nat, seen: seq<int>)
    requires pos < |buffer| && Scanning(buffer, pos, seen)
    requires Acceptable(DecodeRune(buffer[pos..]).cp)
    ensures var rn := DecodeRune(buffer[pos..]);
      1 <= rn.size && Scanning(buffer, pos + rn.size, seen + [rn.cp])
  {
    var rn := DecodeRune(buffer[pos..]);
    ScanAdvances(buffer, pos);
    ScanReencodes(buffer, pos, seen);
    AllAcceptableSnoc(seen, rn.cp);
  }

  /** One iteration of the scan that stops: a rune that is not acceptable means the buffer is not plaintext. */
  lemma ScanRejects(buffer: seq<byte>, pos: nat, seen: seq<int>)
    requires pos < |buffer| && Scanning(buffer, pos, seen)
    requires !Acceptable(DecodeRune(buffer[pos..]).cp)
    ensures !Plaintext(buffer)
  {
    ScanAdvances(buffer, pos);
  }

  /** The rune at `pos` leaves a well-formed rest and decides the verdict together with it. */
  lemma ScanAdvances(buffer: seq<byte>, pos: nat)
    requires pos < |buffer| && Valid(buffer[pos..])
    ensures DecodeFirst(buffer[pos..]).Some?
    ensures var rn := DecodeRune(buffer[pos..]);
      && 1 <= rn.size && pos + rn.size <= |buffer|
      && Valid(buffer[pos + rn.size..])
      && (Plaintext(buffer[pos..]) <==> Acceptable(rn.cp) && Plaintext(buffer[pos + rn.size..]))
  {
    var ahead := buffer[pos..];
    PlaintextStep(ahead);
    assert ahead[DecodeRune(ahead).size..] == buffer[pos + DecodeRune(ahead).size..];
  }

  /** The rune at `pos`, appended to those passed, re-encodes to the bytes up to the new cursor. */
  lemma ScanReencodes(buffer: seq<byte>, pos: nat, seen: seq<int>)
    requires pos < |buffer| && DecodeFirst(buffer[pos..]).Some?
    requires AllScalar(seen) && EncodeAll(seen) == buffer[..pos]
    ensures var rn := DecodeRune(buffer[pos..]);
      && pos + rn.size <= |buffer|
      && AllScalar(seen + [rn.cp]) && EncodeAll(seen + [rn.cp]) == buffer[..pos + rn.size]
  {
    var ahead := buffer[pos..];
    var rn := DecodeRune(ahead);
    EncodeAllAppend(seen, rn.cp);
    assert buffer[..pos + rn.size] == buffer[..pos] + ahead[..rn.size];
  }

  lemma AllAcceptableSnoc(cps: seq<int>, cp: int)
    requires AllAcceptable(cps) && Acceptable(cp)
    ensures AllAcceptable(cps + [cp])
  {
    assert forall i | 0 <= i < |cps| :: (cps + [cp])[i] == cps[i];
  }

  // ----- What the verdict means -----

  /**
    The classifier's contract: a buffer is plaintext exactly when it is the
    UTF-8 encoding of a sequence of scalar values none of which is a control
    character other than `\n`, `\r` and `\t`.
  */
  lemma PlaintextIff(b: seq<byte>)
    ensures Plaintext(b) <==> exists cps :: AllScalar(cps) && AllAcceptable(cps) && EncodeAll(cps) == b
  {
    if Plaintext(b) {
      var cps := DecodeAll(b).value;
      EncodeAllOfDecodeAll(b);
      assert AllScalar(cps) && AllAcceptable(cps) && EncodeAll(cps) == b;
    }
    if cps :| AllScalar(cps) && AllAcceptable(cps) && EncodeAll(cps) == b {
      DecodeAllOfEncodeAll(cps);
    }
  }

  /** A single byte below 32, other than `\n`, `\r` and `\t`, anywhere in the buffer makes it not plaintext. */
  lemma {:induction false} ControlByteRejects(b: seq<byte>, i: nat)
    requires i < |b| && !Acceptable(b[i])
    ensures !Plaintext(b)
    decreases |b|
  {
    if Valid(b) {
      PlaintextStep(b);
      var rn := DecodeFirst(b).value;
      if i < rn.size {
        // a byte below 0x80 can only start a sequence, and then it is the code point
        assert i == 0;
      } else {
        assert b[rn.size..][i - rn.size] == b[i];
        ControlByteRejects(b[rn.size..], i - rn.size);
      }
    }
  }

  /** A buffer of ASCII bytes that are all printable, `\n`, `\r` or `\t` is plaintext. */
  lemma {:induction false} AsciiTextIsPlaintext(b: seq<byte>)
    requires forall i | 0 <= i < |b| :: b[i] < 0x80 && Acceptable(b[i])
    ensures Plaintext(b)
    decreases |b|
  {
    if b != [] {
      var rest := b[1..];
      assert forall i | 0 <= i < |rest| :: rest[i] == b[i + 1];
      AsciiTextIsPlaintext(rest);
      assert DecodeFirst(b) == Some(Rune(b[0], 1));
      assert DecodeAll(b).value == [b[0] as int] + DecodeAll(rest).value;
      AllAcceptableCons(b[0], DecodeAll(rest).value);
    }
  }

  /** The encoding of one acceptable scalar value is plaintext. */
  lemma EncodedRuneIsPlaintext(cp: int)
    requires IsScalarValue(cp) && Acceptable(cp)
    ensures Plaintext(EncodeRune(cp))
  {
    var e := EncodeRune(cp);
    DecodeOfEncoded(cp, []);
    assert e + [] == e;
    assert e[|e|..] == [];
    assert DecodeAll(e) == Some([cp] + []);
    assert AllAcceptable([cp]);
  }

  /** Plaintext followed by plaintext is plaintext. */
  lemma PlaintextAppend(a: seq<byte>, b: seq<byte>)
    requires Plaintext(a) && Plaintext(b)
    ensures Plaintext(a + b)
  {
    DecodeAllAppend(a, b);
    var xs, ys := DecodeAll(a).value, DecodeAll(b).value;
    assert forall i | |xs| <= i < |xs + ys| :: (xs + ys)[i] == ys[i - |xs|];
  }

  /**
    Cutting plaintext after `k` bytes leaves plaintext exactly when the cut
    falls between two encoded characters; a cut inside a multi-byte character
    leaves a truncated sequence, which is not plaintext.
  */
  lemma PlaintextCut(b: seq<byte>, k: nat)
    requires Plaintext(b) && k <= |b|
    ensures Plaintext(b[..k]) <==> (k == |b| || !IsTail(b[k]))
  {
    ValidCut(b, k);
    if Valid(b[..k]) {
      var p, q := DecodeAll(b[..k]).value, DecodeAll(b).value;
      assert forall i | 0 <= i < |p| :: p[i] == q[i];
    }
  }

  // ----- Results -----

  /** The errors an entry point reports. */
  datatype Error =
    | ReadError(cause: IoError)  // a failed read, passed on as it is
    | InvalidLength              // "invalid length: maxKB must be greater than 0"

  /** Go's `(bool, error)` pair: the verdict and, when something went wrong, the error. */
  datatype Answer = Answer(isPlaintext: bool, err: Option<Error>)

  // ----- Reading a stream -----

  /**
    The answer for a whole reader: the reader's error when its reading ends in
    one, else the verdict on everything it delivered (which is `true` when it
    delivered nothing).
  */
  function ReaderVerdict(s: Script): Answer {
    if Fails(s) then Answer(false, Some(ReadError(Failure(s))))
    else Answer(Plaintext(Delivered(s)), None)
  }

  /**
    `isPlaintextFromReader`: reads into a 1024-byte temporary buffer and
    appends what each read delivered, until a read reports EOF (whose bytes
    are kept) or an error (which is returned at once).
  */
  method IsPlaintextFromReader(reader: Script) returns (res: Answer)
    requires WellBehaved(reader)
    ensures res == ReaderVerdict(reader)
    ensures !Fails(reader) && Delivered(reader) == [] ==> res == Answer(true, None)
    ensures Fails(reader) ==> res == Answer(false, Some(ReadError(Failure(reader))))
  {
    var buffer: seq<byte> := [];
    var tempBuf := new byte[ChunkSize](_ => 0);

    var i := 0;
    while true
      invariant 0 <= i <= |reader|
      invariant forall j | 0 <= j < i :: reader[j].status.Ok?
      invariant buffer == Flatten(reader[..i])
      decreases |reader| - i
    {
      // reader.Read(tempBuf): the reader fills the first n bytes of tempBuf
      var result := ReadAt(reader, i);
      var n, err := |result.chunk|, result.status;
      forall k | 0 <= k < n {
        tempBuf[k] := result.chunk[k];
      }

      if n > 0 {
        buffer := buffer + tempBuf[..n];
      }
      assert tempBuf[..n] == result.chunk;
      assert buffer == Flatten(reader[..i]) + result.chunk;

      if err == Eof {
        ReadingStops(reader, i);
        break;
      }
      if err.Fail? {
        ReadingStops(reader, i);
        return Answer(false, Some(ReadError(err.err)));
      }
      FlattenStep(reader, i);
      i := i + 1;
    }

    if |buffer| == 0 {
      return Answer(true, None);
    }
    var ok := IsBufferPlaintext(buffer);
    return Answer(ok, None);
  }

  // ----- Entry points -----

  /** `Bytes`: classifies an in-memory buffer; it never reports an error. */
  method Bytes(data: seq<byte>) returns (res: Answer)
    ensures res == Answer(Plaintext(data), None)
  {
    var ok := IsBufferPlaintext(data);
    return Answer(ok, None);
  }

  /** `Reader`: classifies everything a reader delivers. */
  method Reader(reader: Script) returns (res: Answer)
    requires WellBehaved(reader)
    ensures res == ReaderVerdict(reader)
  {
    res := IsPlaintextFromReader(reader);
  }

  /** The answer of a preview limited to `maxKB` kilobytes. */
  function PreviewVerdict(s: Script, maxKB: int): Answer {
    if maxKB == 0 then Answer(true, Some(InvalidLength))
    else ReaderVerdict(Limit(s, maxKB * 1024))
  }

  /**
    `ReaderPreview`: rejects a zero limit (answering `true` beside the error),
    otherwise classifies what a reader limited to `maxKB * 1024` bytes
    delivers.
  */
  method ReaderPreview(reader: Script, maxKB: int) returns (res: Answer)
    requires WellBehaved(reader)
    ensures res == PreviewVerdict(reader, maxKB)
    ensures maxKB == 0 ==> res == Answer(true, Some(InvalidLength))
    ensures maxKB != 0 ==>
      res == if Fails(reader) && |Before(reader)| < maxKB * 1024 then Answer(false, Some(ReadError(Failure(reader))))
             else Answer(Plaintext(Prefix(Delivered(reader), maxKB * 1024)), None)
  {
    var maxBytes := maxKB * 1024;

    if maxKB == 0 {
      return Answer(true, Some(InvalidLength));
    }

    var limitedReader := Limit(reader, maxBytes);
    res := IsPlaintextFromReader(limitedReader);
    PreviewClassifiesPrefix(reader, maxKB);
  }

  // ----- What the stream answers mean -----

  /**
    A preview classifies a prefix: for a non-zero `maxKB` it reports the
    reader's error only when the reader fails before `maxKB * 1024` bytes have
    gone by, and otherwise the verdict on the first `maxKB * 1024` bytes the
    reader delivers (none at all when `maxKB` is negative).
  */
  lemma PreviewClassifiesPrefix(s: Script, maxKB: int)
    requires maxKB != 0
    ensures var n := maxKB * 1024;
      PreviewVerdict(s, maxKB) ==
        if Fails(s) && |Before(s)| < n then Answer(false, Some(ReadError(Failure(s))))
        else Answer(Plaintext(Prefix(Delivered(s), n)), None)
  {
    LimitDelivers(s, maxKB * 1024);
  }

  /**
    When everything the reader delivers fits in the preview (and a failing
    reader fails before the limit), the preview answers as the whole reader.
  */
  lemma PreviewOfShortStream(s: Script, maxKB: int)
    requires maxKB > 0 && |Delivered(s)| <= maxKB * 1024
    requires Fails(s) ==> |Before(s)| < maxKB * 1024
    ensures PreviewVerdict(s, maxKB) == ReaderVerdict(s)
  {
    PreviewClassifiesPrefix(s, maxKB);
  }

  /**
    When the reader delivers plaintext longer than the preview, the preview
    says `true` exactly when the limit falls between two encoded characters:
    a multi-byte character cut by the limit turns the answer into `false`.
  */
  lemma PreviewCutsAtLimit(s: Script, maxKB: int)
    requires maxKB > 0 && !Fails(s) && Plaintext(Delivered(s)) && maxKB * 1024 < |Delivered(s)|
    ensures PreviewVerdict(s, maxKB).isPlaintext <==> !IsTail(Delivered(s)[maxKB * 1024])
  {
    PreviewClassifiesPrefix(s, maxKB);
    PlaintextCut(Delivered(s), maxKB * 1024);
  }

  /** A negative limit makes the limited reader empty, so the preview answers `true` with no error. */
  lemma PreviewOfNegativeLimit(s: Script, maxKB: int)
    requires maxKB < 0
    ensures PreviewVerdict(s, maxKB) == Answer(true, None)
  {
    PreviewClassifiesPrefix(s, maxKB);
  }
}
