// backend/src/file/file.service.ts, streamToUint8Array, and backend/src/file/fileWebView.util.ts, isProbablyText.
module FileSample {

  type Bytes = seq<bv8>

  /** The bytes of a stream, however it is cut into chunks. */
  function Concat(chunks: seq<Bytes>): Bytes {
    if chunks == [] then [] else Concat(chunks[..|chunks| - 1]) + chunks[|chunks| - 1]
  }

  function Take(bytes: Bytes, n: nat): Bytes {
    if |bytes| <= n then bytes else bytes[..n]
  }

  lemma {:induction false} ConcatPrefix(chunks: seq<Bytes>, k: nat)
    requires k <= |chunks|
    ensures Concat(chunks[..k]) <= Concat(chunks)
  {
    if k < |chunks| {
      assert chunks[..|chunks| - 1][..k] == chunks[..k];
      ConcatPrefix(chunks[..|chunks| - 1], k);
    } else {
      assert chunks[..k] == chunks;
    }
  }

  lemma ConcatAppend(chunks: seq<Bytes>, chunk: Bytes)
    ensures Concat(chunks + [chunk]) == Concat(chunks) + chunk
  {
    assert (chunks + [chunk])[..|chunks|] == chunks;
  }

  lemma ConcatNext(stream: seq<Bytes>, next: nat)
    requires next < |stream|
    ensures Concat(stream[..next + 1]) == Concat(stream[..next]) + stream[next]
  {
    assert stream[..next + 1] == stream[..next] + [stream[next]];
    ConcatAppend(stream[..next], stream[next]);
  }

  lemma TakeOfPrefix(part: Bytes, whole: Bytes, n: nat)
    requires part <= whole && n <= |part|
    ensures Take(whole, n) == part[..n]
  {
  }

  /** If the next chunk reaches the maximum, a part of it completes the sample. */
  lemma SampleEnds(stream: seq<Bytes>, next: nat, maxBytes: nat)
    requires next < |stream| && |Concat(stream[..next])| <= maxBytes
    requires |Concat(stream[..next])| + |stream[next]| >= maxBytes
    ensures Take(Concat(stream), maxBytes) == Concat(stream[..next]) + stream[next][..maxBytes - |Concat(stream[..next])|]
  {
    var before := Concat(stream[..next]);
    ConcatNext(stream, next);
    ConcatPrefix(stream, next + 1);
    TakeOfPrefix(before + stream[next], Concat(stream), maxBytes);
    assert (before + stream[next])[..maxBytes] == before + stream[next][..maxBytes - |before|];
  }

  /** The sample is the first `maxBytes` bytes of the stream, or all of them, however the chunks are cut. */
  method StreamToUint8Array(stream: seq<Bytes>, maxBytes: nat) returns (sample: Bytes)
    ensures sample == Take(Concat(stream), maxBytes)
  {
    var chunks: seq<Bytes> := [];
    var totalBytes: nat := 0;
    var next := 0;
    while next < |stream|
      invariant 0 <= next <= |stream|
      invariant totalBytes == |Concat(chunks)| <= maxBytes
      invariant Concat(chunks) == Concat(stream[..next])
    {
      var buffer := stream[next];
      var remainingBytes := maxBytes - totalBytes;
      if remainingBytes <= 0 {
        SampleEnds(stream, next, maxBytes);
        return Concat(chunks);
      }
      if |buffer| > remainingBytes {
        SampleEnds(stream, next, maxBytes);
        ConcatAppend(chunks, buffer[..remainingBytes]);
        return Concat(chunks + [buffer[..remainingBytes]]);
      }
      ConcatNext(stream, next);
      ConcatAppend(chunks, buffer);
      chunks := chunks + [buffer];
      totalBytes := totalBytes + |buffer|;
      next := next + 1;
    }
    assert stream[..|stream|] == stream;
    sample := Concat(chunks);
  }

  /** A byte that text rarely holds: a control character other than tab, line feed, form feed, carriage return. */
  predicate IsSuspicious(b: bv8) {
    !(b == 9 || b == 10 || b == 13 || b == 12) && !(32 <= b <= 126) && !(b >= 128)
  }

  function SuspiciousCount(bytes: Bytes): nat {
    if bytes == [] then 0
    else SuspiciousCount(bytes[..|bytes| - 1]) + (if IsSuspicious(bytes[|bytes| - 1]) then 1 else 0)
  }

  /** No zero byte and fewer than a tenth suspicious ones among the first 2048 bytes. */
  predicate LooksLikeText(bytes: Bytes) {
    var head := Take(bytes, 2048);
    0 !in head && (head == [] || SuspiciousCount(head) * 10 < |head|)
  }

  method IsProbablyText(bytes: Bytes) returns (r: bool)
    ensures r == LooksLikeText(bytes)
  {
    var sample := Take(bytes, 2048);
    if |sample| == 0 {
      return true;
    }
    var suspiciousByteCount := 0;
    for index := 0 to |sample|
      invariant 0 !in sample[..index]
      invariant suspiciousByteCount == SuspiciousCount(sample[..index])
    {
      assert sample[..index + 1][..index] == sample[..index];
      var byte := sample[index];
      if byte == 0 {
        return false;
      }
      if IsSuspicious(byte) {
        suspiciousByteCount := suspiciousByteCount + 1;
      }
    }
    assert sample[..|sample|] == sample;
    r := suspiciousByteCount * 10 < |sample|;
  }

  /** Suspicious are the control characters below the blank but tab, line feed, form feed and carriage return, and 127. */
  lemma SuspiciousBytes(b: bv8)
    ensures IsSuspicious(b) <==> (b < 32 && b !in {9, 10, 12, 13}) || b == 127
  {
  }

  lemma {:induction false} CountIsSize(bytes: Bytes)
    ensures SuspiciousCount(bytes) == |set k | 0 <= k < |bytes| && IsSuspicious(bytes[k])|
  {
    var all := set k | 0 <= k < |bytes| && IsSuspicious(bytes[k]);
    if bytes != [] {
      var n := |bytes| - 1;
      var front := bytes[..n];
      CountIsSize(front);
      var rest := set k | 0 <= k < |front| && IsSuspicious(front[k]);
      assert all == rest + if IsSuspicious(bytes[n]) then {n} else {};
    }
  }

  /** What counts as text: among the first 2048 bytes no zero and under a tenth of suspicious ones. */
  lemma TextExactly(bytes: Bytes)
    ensures var n := if |bytes| < 2048 then |bytes| else 2048;
      LooksLikeText(bytes) <==>
        (forall k | 0 <= k < n :: bytes[k] != 0)
        && (n == 0 || 10 * |set k | 0 <= k < n && IsSuspicious(bytes[k])| < n)
  {
    var head := Take(bytes, 2048);
    CountIsSize(head);
    var n := |head|;
    assert (set k | 0 <= k < n && IsSuspicious(bytes[k])) == set k | 0 <= k < |head| && IsSuspicious(head[k]);
    assert forall k | 0 <= k < n :: head[k] == bytes[k];
  }

  /** A sample of at least 2048 bytes is classified like the whole file. */
  lemma SampleDecides(stream: seq<Bytes>, maxBytes: nat)
    requires maxBytes >= 2048
    ensures LooksLikeText(Take(Concat(stream), maxBytes)) == LooksLikeText(Concat(stream))
  {
    assert Take(Take(Concat(stream), maxBytes), 2048) == Take(Concat(stream), 2048);
  }
}
