/**
 * `read_line_from_path::<N>` of src/read_line.rs: fill an N-byte array from a
 * file read by read, stop at end of file, at a chunk holding a newline or when
 * the array is full, then check UTF-8 and copy into a string of capacity N.
 *
 * The file is what its successive reads deliver: whether it opens, then one
 * chunk per `read` call. A read into a smaller space than its chunk delivers
 * the head of the chunk; that fills the array, so the loop never reads the
 * rest of that chunk.
 */
module ReadLine {
  import opened Wrappers
  import opened Utf8
  import opened Text
  import opened Buffer

  datatype ReadLineError = Io | Utf8Error | Capacity

  datatype Result<T> = Ok(value: T) | Err(error: ReadLineError)

  /** What one `read` call would deliver given enough room: bytes (none at end of file), or an I/O error. */
  datatype Chunk = Data(bytes: seq<Byte>) | Failure

  datatype File = File(opens: bool, chunks: seq<Chunk>)

  const NEWLINE: Byte := 10

  /** `memchr::memrchr`: the index of the last `x` in `s`. */
  function LastIndex(s: seq<Byte>, x: Byte): (r: Option<nat>)
    ensures r.Some? ==> r.value < |s| && s[r.value] == x
    ensures r.Some? ==> forall i :: r.value < i < |s| ==> s[i] != x
    ensures r.None? ==> forall i :: 0 <= i < |s| ==> s[i] != x
  {
    if |s| == 0 then None
    else if s[|s| - 1] == x then Some(|s| - 1)
    else LastIndex(s[..|s| - 1], x)
  }

  function Min(a: nat, b: nat): nat { if a <= b then a else b }

  /**
   * The bytes the fill loop leaves in `timings[..read]`, starting from
   * `filled` with `chunks` still to be read, or the I/O error it stops at.
   */
  function Fill(n: nat, filled: seq<Byte>, chunks: seq<Chunk>): (r: Result<seq<Byte>>)
    requires |filled| <= n
    ensures r.Ok? ==> |filled| <= |r.value| <= n && r.value[..|filled|] == filled
    ensures r.Err? ==> r.error == Io
    decreases |chunks|
  {
    if |filled| == n || |chunks| == 0 then Ok(filled)
    else match chunks[0]
      case Failure => Err(Io)
      case Data(d) =>
        var got := d[..Min(|d|, n - |filled|)];
        if |got| == 0 then Ok(filled)
        else match LastIndex(got, NEWLINE)
          case Some(pos) => Ok(filled + got[..pos])
          case None => Fill(n, filled + got, chunks[1..])
  }

  /** The whole function: open, fill, UTF-8 check, capacity-bounded copy. */
  function ReadLineOf(n: nat, f: File): (r: Result<string>)
    ensures r != Err(Capacity)
    ensures !f.opens ==> r == Err(Io)
  {
    if !f.opens then Err(Io)
    else match Fill(n, [], f.chunks)
      case Err(e) => Err(e)
      case Ok(b) =>
        if !Valid(b) then Err(Utf8Error)
        else if |b| > n then Err(Capacity)
        else Ok(Decode(b))
  }

  /** The bytes of the file up to its end (the first empty read) or its first I/O error. */
  function Stream(chunks: seq<Chunk>): seq<Byte>
  {
    if |chunks| == 0 then []
    else match chunks[0]
      case Failure => []
      case Data(d) => if |d| == 0 then [] else d + Stream(chunks[1..])
  }

  predicate NoFailure(chunks: seq<Chunk>)
  {
    |chunks| == 0 || (chunks[0].Data? && (|chunks[0].bytes| == 0 || NoFailure(chunks[1..])))
  }

  /**
   * What the loop stops at: the result is a prefix of the file's bytes, and
   * it is all of them (end of file), or N of them (full array), or the byte
   * right after it is a newline, the last one of its chunk.
   */
  lemma {:induction false} FillStops(n: nat, filled: seq<Byte>, chunks: seq<Chunk>)
    requires |filled| <= n
    ensures var r := Fill(n, filled, chunks); var s := filled + Stream(chunks);
      r.Ok? ==> (|r.value| <= |s| && r.value == s[..|r.value|]
        && (|r.value| == |s| || |r.value| == n || s[|r.value|] == NEWLINE))
    decreases |chunks|
  {
    var s := filled + Stream(chunks);
    if |filled| == n || |chunks| == 0 {
    } else if chunks[0].Data? {
      var d := chunks[0].bytes;
      var got := d[..Min(|d|, n - |filled|)];
      if |got| > 0 {
        assert s == filled + d + Stream(chunks[1..]);
        match LastIndex(got, NEWLINE)
        case Some(pos) =>
          assert s[..|filled| + pos] == filled + got[..pos];
        case None =>
          FillStops(n, filled + got, chunks[1..]);
          if |got| < |d| {
            assert |filled + got| == n;
          } else {
            assert got == d;
          }
      }
    }
  }

  predicate NoNewline(s: seq<Byte>) { forall i :: 0 <= i < |s| ==> s[i] != NEWLINE }

  /** Without newlines and I/O errors the result is the first N bytes of the file (or all of it). */
  lemma {:induction false} FillWithoutNewline(n: nat, filled: seq<Byte>, chunks: seq<Chunk>)
    requires |filled| <= n && NoFailure(chunks) && NoNewline(Stream(chunks))
    ensures Fill(n, filled, chunks) == Ok(Take(filled + Stream(chunks), n))
    decreases |chunks|
  {
    if |filled| < n && |chunks| > 0 && |chunks[0].bytes| > 0 {
      var d := chunks[0].bytes;
      var rest := Stream(chunks[1..]);
      assert Stream(chunks) == d + rest;
      NoNewlineParts(d, rest);
      FillChunkWithoutNewline(n, filled, chunks);
      TakeAppend(filled, d, rest, n);
      if |d| <= n - |filled| {
        FillWithoutNewline(n, filled + d, chunks[1..]);
      }
    } else {
      assert Stream(chunks) == [] || |filled| == n;
      assert Take(filled + Stream(chunks), n) == filled;
    }
  }

  lemma TakeAppend(filled: seq<Byte>, d: seq<Byte>, rest: seq<Byte>, n: nat)
    requires |filled| <= n
    ensures |d| > n - |filled| ==> Take(filled + (d + rest), n) == filled + d[..n - |filled|]
    ensures Take(filled + d + rest, n) == Take(filled + (d + rest), n)
  {
    assert filled + d + rest == filled + (d + rest);
    if |d| > n - |filled| {
      assert (filled + (d + rest))[..n] == filled + d[..n - |filled|];
    }
  }

  /** A chunk without a newline is taken whole, or up to the capacity. */
  lemma FillChunkWithoutNewline(n: nat, filled: seq<Byte>, chunks: seq<Chunk>)
    requires |filled| < n && |chunks| > 0 && chunks[0].Data? && |chunks[0].bytes| > 0
    requires NoNewline(chunks[0].bytes)
    ensures var d := chunks[0].bytes;
      && (|d| > n - |filled| ==> Fill(n, filled, chunks) == Ok(filled + d[..n - |filled|]))
      && (|d| <= n - |filled| ==> Fill(n, filled, chunks) == Fill(n, filled + d, chunks[1..]))
  {
    var d := chunks[0].bytes;
    var got := d[..Min(|d|, n - |filled|)];
    assert NoNewline(got) by {
      forall i | 0 <= i < |got| ensures got[i] != NEWLINE {
        assert got[i] == d[i];
      }
    }
    assert LastIndex(got, NEWLINE) == None;
    if |d| <= n - |filled| {
      assert got == d;
    }
  }

  lemma NoNewlineParts(a: seq<Byte>, b: seq<Byte>)
    requires NoNewline(a + b)
    ensures NoNewline(a) && NoNewline(b)
  {
    assert forall i :: 0 <= i < |a| ==> a[i] == (a + b)[i];
    assert forall i :: 0 <= i < |b| ==> b[i] == (a + b)[|a| + i];
  }

  /**
   * The error cases: an unopenable file or a failing read gives `Io`, bytes
   * that are not UTF-8 give `Utf8Error`, and `Capacity` never happens because
   * the loop never reads more than N bytes. On success the string's UTF-8
   * bytes are a prefix of the file's bytes, at most N of them.
   */
  lemma ReadLineOutcome(n: nat, f: File)
    ensures ReadLineOf(n, f) != Err(Capacity)
    ensures ReadLineOf(n, f) == Err(Io) <==> !f.opens || Fill(n, [], f.chunks).Err?
    ensures ReadLineOf(n, f) == Err(Utf8Error) <==>
      f.opens && Fill(n, [], f.chunks).Ok? && !Valid(Fill(n, [], f.chunks).value)
    ensures ReadLineOf(n, f).Ok? ==>
      var b := Encode(ReadLineOf(n, f).value);
      |b| <= n && |b| <= |Stream(f.chunks)| && b == Stream(f.chunks)[..|b|]
  {
    if f.opens && Fill(n, [], f.chunks).Ok? {
      var b := Fill(n, [], f.chunks).value;
      FillStops(n, [], f.chunks);
      assert [] + Stream(f.chunks) == Stream(f.chunks);
      if Valid(b) {
        EncodeDecode(b);
      }
    }
  }

  /** One pass of the loop: what is left to fill after one more chunk has been read. */
  lemma FillStep(n: nat, filled: seq<Byte>, chunks: seq<Chunk>)
    requires |filled| < n && |chunks| > 0 && chunks[0].Data?
    ensures var got := chunks[0].bytes[..Min(|chunks[0].bytes|, n - |filled|)];
      && (|got| == 0 ==> Fill(n, filled, chunks) == Ok(filled))
      && (|got| > 0 && LastIndex(got, NEWLINE).Some? ==>
            Fill(n, filled, chunks) == Ok(filled + got[..LastIndex(got, NEWLINE).value]))
      && (|got| > 0 && LastIndex(got, NEWLINE).None? ==>
            Fill(n, filled, chunks) == Fill(n, filled + got, chunks[1..]))
  {
  }

  lemma PrefixOfConcat<T>(a: seq<T>, b: seq<T>, k: nat)
    requires k <= |b|
    ensures (a + b)[..|a| + k] == a + b[..k]
  {
  }

  /**
   * One `file.read(&mut timings[read..])` delivering chunk `d`, then `memrchr`
   * over the bytes it delivered.
   */
  method ReadChunk(buf: array<Byte>, read: nat, d: seq<Byte>) returns (bytesRead: nat, newline: Option<nat>)
    requires read <= buf.Length
    modifies buf
    ensures bytesRead == Min(|d|, buf.Length - read)
    ensures buf[..read + bytesRead] == old(buf[..read]) + d[..bytesRead]
    ensures newline == LastIndex(d[..bytesRead], NEWLINE)
  {
    bytesRead := Min(|d|, buf.Length - read);
    CopyInto(buf, read, d[..bytesRead]);
    assert buf[read..read + bytesRead] == d[..bytesRead];
    newline := LastIndex(buf[read..read + bytesRead], NEWLINE);
  }

  /** The whole function: open, fill, UTF-8 check, capacity-bounded copy. */
  method ReadLineFromPath(n: nat, f: File) returns (r: Result<string>)
    ensures r == ReadLineOf(n, f)
  {
    if !f.opens {
      return Err(Io);
    }
    var filled := FillArray(n, f.chunks);
    if filled.Err? {
      return Err(Io);
    }
    var line := filled.value;
    if !Valid(line) {
      return Err(Utf8Error);
    }
    r := if |line| > n then Err(Capacity) else Ok(Decode(line));
  }

  /**
   * One pass of the loop in terms of the bytes: `bytesRead` bytes of the next
   * chunk appended to `before`, and the last newline among them.
   */
  lemma FillAfterRead(n: nat, before: seq<Byte>, chunks: seq<Chunk>, bytesRead: nat, newline: Option<nat>)
    requires |before| < n && |chunks| > 0 && chunks[0].Data?
    requires bytesRead == Min(|chunks[0].bytes|, n - |before|)
    requires newline == LastIndex(chunks[0].bytes[..bytesRead], NEWLINE)
    ensures var after := before + chunks[0].bytes[..bytesRead];
      && (bytesRead == 0 ==> Fill(n, before, chunks) == Ok(after))
      && (bytesRead > 0 && newline.Some? ==>
            |before| + newline.value <= |after| && Fill(n, before, chunks) == Ok(after[..|before| + newline.value]))
      && (bytesRead > 0 && newline.None? ==> Fill(n, before, chunks) == Fill(n, after, chunks[1..]))
  {
    FillStep(n, before, chunks);
    var got := chunks[0].bytes[..bytesRead];
    if bytesRead == 0 {
      assert before + got == before;
    }
    if newline.Some? {
      PrefixOfConcat(before, got, newline.value);
    }
  }

  /**
   * One pass of the loop body: read the next chunk into `timings[read..]`,
   * look for its last newline, and say whether the loop stops, with the new
   * value of `read`.
   */
  method ReadStep(timings: array<Byte>, read: nat, chunks: seq<Chunk>) returns (next: nat, stop: bool)
    requires read < timings.Length && |chunks| > 0 && chunks[0].Data?
    modifies timings
    ensures next <= timings.Length
    ensures stop ==> Fill(timings.Length, old(timings[..read]), chunks) == Ok(timings[..next])
    ensures !stop ==> Fill(timings.Length, old(timings[..read]), chunks) == Fill(timings.Length, timings[..next], chunks[1..])
  {
    ghost var before := timings[..read];
    var bytesRead, newline := ReadChunk(timings, read, chunks[0].bytes);
    FillAfterRead(timings.Length, before, chunks, bytesRead, newline);
    var newlinePosition := if newline.Some? then Some(read + newline.value) else None;
    next := read + bytesRead;
    if bytesRead == 0 {
      return next, true;
    }
    if newlinePosition.Some? {
      assert timings[..newlinePosition.value] == timings[..next][..newlinePosition.value];
      return newlinePosition.value, true;
    }
    stop := false;
  }

  /** The loop of the source over an N-byte array; `read` never exceeds N. */
  method FillArray(n: nat, chunks: seq<Chunk>) returns (r: Result<seq<Byte>>)
    ensures r == Fill(n, [], chunks)
  {
    var timings := new Byte[n](_ => 0);
    var read: nat := 0;
    var i := 0;
    ghost var outcome := Fill(n, [], chunks);
    assert timings[..read] == [] && chunks[i..] == chunks;
    while read < timings.Length
      invariant timings.Length == n && read <= n && i <= |chunks|
      invariant outcome == Fill(n, timings[..read], chunks[i..])
      decreases |chunks| - i
    {
      if i == |chunks| {
        break;
      }
      if chunks[i].Failure? {
        return Err(Io);
      }
      assert chunks[i..][1..] == chunks[i + 1..];
      var stop;
      read, stop := ReadStep(timings, read, chunks[i..]);
      if stop {
        return Ok(timings[..read]);
      }
      i := i + 1;
    }
    assert outcome == Ok(timings[..read]) by {
      if read == n {
        assert |timings[..read]| == n;
      }
    }
    r := Ok(timings[..read]);
  }
}
