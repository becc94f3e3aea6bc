/**
  The two pieces of Go's `io` package the classifier relies on, modelled on
  values: a reader, given by the outcomes of its successive reads, and
  `io.LimitReader`, which turns a reader into one that stops after a number of
  bytes.
*/
module Io {
  import opened Prelude

  /** The length of the temporary buffer each read fills, so no read returns more. */
  const ChunkSize: nat := 1024

  /** A read error other than end of stream; `id` stands for the error value. */
  datatype IoError = IoError(id: nat)

  /** What a read reports beside its bytes: nothing (`nil`), `io.EOF`, or another error. */
  datatype Status = Ok | Eof | Fail(err: IoError)

  /** One call of `Read`: the bytes it delivered and the status it reported with them. */
  datatype ReadResult = ReadResult(chunk: seq<byte>, status: Status)

  /**
    A reader, given by the results of its successive reads. Once the script is
    used up, every further read delivers no bytes and reports `io.EOF`.
  */
  type Script = seq<ReadResult>

  /** The result of the reader's `i`-th read (counting from 0). */
  function ReadAt(s: Script, i: nat): ReadResult {
    if i < |s| then s[i] else ReadResult([], Eof)
  }

  /** The reader keeps `io.Reader`'s promise never to deliver more than the buffer it is given. */
  predicate WellBehaved(s: Script) {
    forall i | 0 <= i < |s| :: |s[i].chunk| <= ChunkSize
  }

  /** The bytes of all the reads of `s`, in order. */
  function Flatten(s: Script): seq<byte> {
    if s == [] then [] else s[0].chunk + Flatten(s[1..])
  }

  lemma {:induction false} FlattenAppend(a: Script, b: Script)
    ensures Flatten(a + b) == Flatten(a) + Flatten(b)
  {
    if a == [] {
      assert a + b == b;
    } else {
      assert (a + b)[1..] == a[1..] + b;
      FlattenAppend(a[1..], b);
    }
  }

  /** The read that ends the reading: the first one that reports EOF or an error, or |s| if none does. */
  function StopIndex(s: Script): (k: nat)
    ensures k <= |s|
    ensures forall j | 0 <= j < k :: s[j].status.Ok?
    ensures k < |s| ==> !s[k].status.Ok?
  {
    if s == [] || !s[0].status.Ok? then 0 else 1 + StopIndex(s[1..])
  }

  /** The read that ends the reading reports an error other than EOF. */
  predicate Fails(s: Script) {
    StopIndex(s) < |s| && s[StopIndex(s)].status.Fail?
  }

  /** The error that ends a failing reader. */
  function Failure(s: Script): IoError
    requires Fails(s)
  {
    s[StopIndex(s)].status.err
  }

  /** The bytes of the reads that report nothing, before the read that ends the reading. */
  function Before(s: Script): seq<byte> {
    Flatten(s[..StopIndex(s)])
  }

  /**
    Every byte the reader delivers until it stops: all chunks up to and
    including the one returned with EOF (or with the error).
  */
  function Delivered(s: Script): (r: seq<byte>)
    ensures StopIndex(s) < |s| ==> r == Before(s) + s[StopIndex(s)].chunk
    ensures StopIndex(s) == |s| ==> r == Flatten(s)
  {
    if s == [] then []
    else if s[0].status.Ok? then
      var rest := Delivered(s[1..]);
      DeliveredCons(s, rest);
      s[0].chunk + rest
    else
      assert s[..0] == [];
      s[0].chunk
  }

  /** The bytes delivered after a first read that reports nothing are its chunk followed by what the rest delivers. */
  lemma DeliveredCons(s: Script, rest: seq<byte>)
    requires s != [] && s[0].status.Ok?
    requires StopIndex(s[1..]) < |s[1..]| ==> rest == Before(s[1..]) + s[1..][StopIndex(s[1..])].chunk
    requires StopIndex(s[1..]) == |s[1..]| ==> rest == Flatten(s[1..])
    ensures StopIndex(s) < |s| ==> s[0].chunk + rest == Before(s) + s[StopIndex(s)].chunk
    ensures StopIndex(s) == |s| ==> s[0].chunk + rest == Flatten(s)
  {
    StopUnfold(s);
    var t := s[1..];
    if StopIndex(t) < |t| {
      assert s[StopIndex(s)] == t[StopIndex(t)];
      assert s[0].chunk + rest == (s[0].chunk + Before(t)) + t[StopIndex(t)].chunk;
    }
  }

  /** How the reading of `s` relates to the reading of the rest after a first read that reports nothing. */
  lemma StopUnfold(s: Script)
    requires s != [] && s[0].status.Ok?
    ensures StopIndex(s) == 1 + StopIndex(s[1..])
    ensures Fails(s) == Fails(s[1..])
    ensures Fails(s) ==> Failure(s) == Failure(s[1..])
    ensures Before(s) == s[0].chunk + Before(s[1..])
    ensures Flatten(s) == s[0].chunk + Flatten(s[1..])
  {
    var t := s[1..];
    var k := StopIndex(t);
    assert StopIndex(s) == 1 + k;
    if k < |t| {
      assert s[1 + k] == t[k];
    }
    var p := s[..1 + k];
    assert p[0] == s[0] && p[1..] == t[..k];
    assert Before(s) == Flatten(p) == p[0].chunk + Flatten(p[1..]);
  }

  /** One more read adds its chunk to the bytes read so far. */
  lemma FlattenStep(s: Script, i: nat)
    requires i < |s|
    ensures Flatten(s[..i + 1]) == Flatten(s[..i]) + s[i].chunk
  {
    FlattenAppend(s[..i], [s[i]]);
    assert s[..i + 1] == s[..i] + [s[i]];
    assert Flatten([s[i]]) == s[i].chunk + Flatten([]);
  }

  /**
    Reading `s` one read at a time: after `i` reads that reported nothing, a
    read that reports EOF or an error ends the reading, and then the bytes
    read so far plus its chunk are all the reader delivers.
  */
  lemma ReadingStops(s: Script, i: nat)
    requires i <= |s| && forall j | 0 <= j < i :: s[j].status.Ok?
    requires !ReadAt(s, i).status.Ok?
    ensures StopIndex(s) == i
    ensures Fails(s) <==> ReadAt(s, i).status.Fail?
    ensures Fails(s) ==> Failure(s) == ReadAt(s, i).status.err
    ensures Delivered(s) == Flatten(s[..i]) + ReadAt(s, i).chunk
  {
    if i == |s| {
      assert s[..i] == s;
    }
  }

  /** The first `n` bytes of `b` (all of `b` when it is shorter, none when `n <= 0`). */
  function Prefix(b: seq<byte>, n: int): (r: seq<byte>)
    ensures r <= b
    ensures |r| == if n <= 0 then 0 else if n < |b| then n else |b|
  {
    if n <= 0 then [] else if n < |b| then b[..n] else b
  }

  /**
    `io.LimitReader(s, n)`: once `n` bytes have been delivered, or at once when
    `n <= 0`, every read reports EOF with no bytes; before that, each read
    delivers at most the bytes still allowed and passes on the status of the
    underlying read.
  */
  function Limit(s: Script, n: int): (r: Script)
    ensures WellBehaved(s) ==> WellBehaved(r)
    ensures |Flatten(r)| <= if n <= 0 then 0 else n
    decreases |s|
  {
    if n <= 0 then
      [ReadResult([], Eof)]
    else if s == [] then
      []
    else
      var k := if |s[0].chunk| <= n then |s[0].chunk| else n;
      var r := [ReadResult(s[0].chunk[..k], s[0].status)] + Limit(s[1..], n - k);
      assert r[1..] == Limit(s[1..], n - k);
      r
  }

  lemma PrefixAppend(c: seq<byte>, d: seq<byte>, n: int)
    requires |c| <= n
    ensures Prefix(c + d, n) == c + Prefix(d, n - |c|)
  {
    if n - |c| < |d| {
      assert (c + d)[..n] == c + d[..n - |c|];
    }
  }

  /** The case of `LimitDelivers` where the first read already ends the reading. */
  lemma LimitStopsAtFirst(s: Script, n: int)
    requires n > 0 && s != [] && !s[0].status.Ok?
    ensures !Fails(Limit(s, n)) <==> !Fails(s)
    ensures Fails(s) ==> Failure(Limit(s, n)) == Failure(s)
    ensures Delivered(Limit(s, n)) == Prefix(Delivered(s), n)
    ensures Before(s) == []
  {
    var r := Limit(s, n);
    assert r[0].status == s[0].status;
    assert s[..0] == [];
  }

  /** The case of `LimitDelivers` where the limit is reached inside a read that reports nothing. */
  lemma LimitReachedInside(s: Script, n: int)
    requires n > 0 && s != [] && s[0].status.Ok? && n <= |s[0].chunk|
    ensures !Fails(Limit(s, n))
    ensures |Before(s)| >= n
    ensures Delivered(Limit(s, n)) == Prefix(Delivered(s), n)
  {
    var r := Limit(s, n);
    var c := s[0].chunk;
    var k := if |c| <= n then |c| else n;
    assert k == n && c[..k] == c[..n];
    assert s[0].status == Ok;
    assert Limit(s[1..], n - k) == [ReadResult([], Eof)];
    assert r == [ReadResult(c[..n], Ok), ReadResult([], Eof)];
    StopUnfold(s);
    StopUnfold(r);
    assert r[1..] == [ReadResult([], Eof)];
    assert Delivered(r) == c[..n];
    assert Delivered(s) == c + Delivered(s[1..]);
    assert (c + Delivered(s[1..]))[..n] == c[..n];
  }

  /**
    The case of `LimitDelivers` where a read that reports nothing passes
    through whole: given the property for the rest of the reads, it holds
    for all of them.
  */
  lemma LimitPassesRead(s: Script, n: int)
    requires s != [] && s[0].status.Ok? && |s[0].chunk| < n
    requires var t, m := s[1..], n - |s[0].chunk|;
      && (Fails(Limit(t, m)) <==> Fails(t) && |Before(t)| < m)
      && (Fails(Limit(t, m)) ==> Failure(Limit(t, m)) == Failure(t))
      && (!Fails(Limit(t, m)) ==> Delivered(Limit(t, m)) == Prefix(Delivered(t), m))
    ensures Fails(Limit(s, n)) <==> Fails(s) && |Before(s)| < n
    ensures Fails(Limit(s, n)) ==> Failure(Limit(s, n)) == Failure(s)
    ensures !Fails(Limit(s, n)) ==> Delivered(Limit(s, n)) == Prefix(Delivered(s), n)
  {
    var c := s[0].chunk;
    var r := Limit(s, n);
    var rest := Limit(s[1..], n - |c|);
    assert c[..|c|] == c;
    assert s[0].status == Ok;
    assert r == [ReadResult(c, Ok)] + rest;
    OkReadFirst([ReadResult(c, Ok)] + rest, c, rest);
    OkReadFirst(s, c, s[1..]);
    PrefixAppend(c, Delivered(s[1..]), n);
  }

  /** A script whose first read reports nothing is read as that chunk followed by the rest. */
  lemma OkReadFirst(s: Script, c: seq<byte>, rest: Script)
    requires s != [] && s[0] == ReadResult(c, Ok) && s[1..] == rest
    ensures Fails(s) == Fails(rest) && (Fails(s) ==> Failure(s) == Failure(rest))
    ensures Before(s) == c + Before(rest)
    ensures Delivered(s) == c + Delivered(rest)
  {
    StopUnfold(s);
  }

  /**
    What a limited reader delivers: it fails exactly when the underlying
    reader fails before `n` bytes have gone by, with the same error, and
    otherwise delivers the first `n` bytes of what the underlying reader
    delivers. Bytes beyond the limit, and an error beyond it, are never seen.
  */
  lemma {:induction false} LimitDelivers(s: Script, n: int)
    ensures Fails(Limit(s, n)) <==> Fails(s) && |Before(s)| < n
    ensures Fails(Limit(s, n)) ==> Failure(Limit(s, n)) == Failure(s)
    ensures !Fails(Limit(s, n)) ==> Delivered(Limit(s, n)) == Prefix(Delivered(s), n)
    decreases |s|
  {
    if n <= 0 || s == [] {
    } else if !s[0].status.Ok? {
      LimitStopsAtFirst(s, n);
    } else if n <= |s[0].chunk| {
      LimitReachedInside(s, n);
    } else {
      LimitDelivers(s[1..], n - |s[0].chunk|);
      LimitPassesRead(s, n);
    }
  }
}
