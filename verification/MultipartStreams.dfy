/**
 Encoding a form from input streams, in memory or to an output stream.

 A stream hands out its bytes in pieces of its own choosing and may fail; an output stream takes any part of what it is
 offered, until it is full. Both forms of the encoder are proved against `EncodePieces`.
 */
module MultipartStreams {
  import opened Wire
  import opened MultipartFormData

  const STREAM_BUFFER_SIZE := 1024

  datatype MultipartError =
    | BodyPartFailed(code: nat) | InputStreamReadFailed | OutputStreamWriteFailed
    | OutputStreamFileAlreadyExists | OutputStreamURLInvalid | OutputStreamCreationFailed

  datatype Encoded = Success(data: Bytes) | Failure(error: MultipartError)

  /** An input stream; only one that `fails` ever reports an error. */
  class InputStream {
    const fails: bool
    var remaining: Bytes

    constructor (data: Bytes, fails: bool)
      ensures remaining == data && this.fails == fails
    {
      remaining, this.fails := data, fails;
    }

    /** May be true of an exhausted stream: only a read tells. */
    method HasBytesAvailable() returns (available: bool)
      ensures remaining != [] ==> available
    {
      available := true;
      if remaining == [] { available := *; }
    }

    /** Puts any number of the next bytes at the front of the buffer; none only when there are none left. */
    method Read(buffer: Bytes, maxLength: nat) returns (buffer': Bytes, bytesRead: nat, failed: bool)
      requires 0 < maxLength <= |buffer|
      modifies this
      ensures failed ==> fails && remaining == old(remaining)
      ensures !failed ==> bytesRead <= maxLength && bytesRead <= |old(remaining)|
      ensures !failed ==> remaining == old(remaining)[bytesRead..]
      ensures !failed ==> buffer' == old(remaining)[..bytesRead] + buffer[bytesRead..]
      ensures !failed && old(remaining) != [] ==> bytesRead > 0
    {
      buffer', bytesRead, failed := buffer, 0, false;
      if fails { failed := *; }
      if !failed && remaining != [] {
        bytesRead :| 0 < bytesRead <= maxLength && bytesRead <= |remaining|;
        buffer' := remaining[..bytesRead] + buffer[bytesRead..];
        remaining := remaining[bytesRead..];
      }
    }
  }

  /** What an output stream has taken, how much more it can take, and how many bytes were given up when it was full. */
  datatype Sink = Sink(written: Bytes, space: nat, dropped: nat, refills: bool)

  /**
   Between `before` and `after` an attempt to write `data` added `n` bytes. If `ok`, the others were given up, which
   takes a full stream. What was added is a prefix of `data` unless a stream that regains space had a gap.
   */
  ghost predicate WroteFirst(before: Sink, after: Sink, data: Bytes, n: nat, ok: bool) {
    && n <= |data| && after.refills == before.refills && before.dropped <= after.dropped
    && before.written <= after.written && |after.written| == |before.written| + n
    && n + after.dropped - before.dropped <= |data| && (ok ==> n + after.dropped - before.dropped == |data|)
    && before.space - n <= after.space && (!before.refills ==> before.space - n == after.space)
    && (after.dropped > before.dropped ==> before.space <= n)
    && (after.dropped == before.dropped || !before.refills ==> after.written == before.written + data[..n])
  }

  ghost predicate Wrote(before: Sink, after: Sink, data: Bytes, ok: bool) {
    exists n: nat :: WroteFirst(before, after, data, n, ok)
  }

  lemma FirstThen(s0: Sink, s1: Sink, a: Bytes, n: nat, s2: Sink, b: Bytes, m: nat, ok: bool)
    requires WroteFirst(s0, s1, a, n, true) && WroteFirst(s1, s2, b, m, ok)
    ensures WroteFirst(s0, s2, a + b, n + m, ok)
  {
    if n == |a| {
      assert (a + b)[..n + m] == a[..n] + b[..m];
    } else if !s0.refills {
      assert (a + b)[..n] == a[..n] && b[..0] == [];
    }
  }

  lemma WroteThen(s0: Sink, s1: Sink, a: Bytes, s2: Sink, b: Bytes, ok: bool)
    requires Wrote(s0, s1, a, true) && Wrote(s1, s2, b, ok)
    ensures Wrote(s0, s2, a + b, ok)
  {
    var n: nat :| WroteFirst(s0, s1, a, n, true);
    var m: nat :| WroteFirst(s1, s2, b, m, ok);
    FirstThen(s0, s1, a, n, s2, b, m, ok);
  }

  lemma WroteNothing(s0: Sink)
    ensures Wrote(s0, s0, [], true)
  {
    var none: Bytes := [];
    assert none[..0] == none;
    assert WroteFirst(s0, s0, none, 0, true);
  }

  lemma WroteLess(s0: Sink, s1: Sink, a: Bytes, b: Bytes, ok: bool)
    requires Wrote(s0, s1, a, ok)
    ensures Wrote(s0, s1, a + b, false)
  {
    var n: nat :| WroteFirst(s0, s1, a, n, ok);
    assert (a + b)[..n] == a[..n];
    assert WroteFirst(s0, s1, a + b, n, false);
  }

  lemma WroteNone(s0: Sink, data: Bytes)
    ensures Wrote(s0, s0, data, false)
  {
    WroteNothing(s0);
    WroteLess(s0, s0, [], data, true);
    assert [] + data == data;
  }

  /**
   Without an error the stream holds all of the data exactly when nothing was given up; that is so when there was room
   for all of it, and only then if the stream regains no space. A full stream is no error.
   */
  lemma StreamedIffRoom(s0: Sink, s1: Sink, data: Bytes)
    requires Wrote(s0, s1, data, true)
    ensures s1.written == s0.written + data <==> s1.dropped == s0.dropped
    ensures |data| <= s0.space ==> s1.written == s0.written + data
    ensures !s0.refills && |data| > s0.space ==> s1.written == s0.written + data[..s0.space] && s1.space == 0
  {
    var n: nat :| WroteFirst(s0, s1, data, n, true);
    if n == |data| { assert data[..n] == data; } else { assert |s1.written| != |s0.written + data|; }
  }

  /** One more step of several: what comes after it is not reached when it fails. */
  lemma WroteStep(s0: Sink, s1: Sink, a: Bytes, s2: Sink, b: Bytes, ok: bool, rest: Bytes)
    requires Wrote(s0, s1, a, true) && Wrote(s1, s2, b, ok)
    ensures if ok then Wrote(s0, s2, a + b, true) else Wrote(s0, s2, a + (b + rest), false)
  {
    WroteThen(s0, s1, a, s2, b, ok);
    if !ok {
      WroteLess(s0, s2, a + b, rest, ok);
      assert a + b + rest == a + (b + rest);
    }
  }

  /** The next `n` bytes of what was left, written after everything before them. */
  lemma ChunkWritten(s0: Sink, s1: Sink, s2: Sink, done: Bytes, left: Bytes, n: nat, ok: bool)
    requires n <= |left| && Wrote(s0, s1, done, true) && Wrote(s1, s2, left[..n], ok)
    ensures if ok then Wrote(s0, s2, done + left[..n], true) else Wrote(s0, s2, done + left, false)
    ensures done + left[..n] + left[n..] == done + left
  {
    WroteStep(s0, s1, done, s2, left[..n], ok, left[n..]);
    assert left[..n] + left[n..] == left;
  }

  /** An output stream; only one that `fails` ever reports an error, and only one that `refills` regains space. */
  class OutputStream {
    const fails: bool
    const refills: bool
    var written: Bytes
    var space: nat
    ghost var dropped: nat

    constructor (capacity: nat, fails: bool, refills: bool)
      ensures State() == Sink([], capacity, 0, refills) && this.fails == fails
    {
      written, space, dropped := [], capacity, 0;
      this.fails, this.refills := fails, refills;
    }

    ghost function State(): Sink
      reads this
    {
      Sink(written, space, dropped, refills)
    }

    method HasSpaceAvailable() returns (available: bool)
      modifies this`space
      ensures space >= old(space) && (!refills ==> space == old(space))
      ensures available <==> space > 0
    {
      if refills {
        var more :| 0 <= more;
        space := space + more;
      }
      available := space > 0;
    }

    /** Takes at least one and at most as many bytes as there is room for. */
    method Write(buffer: Bytes, maxLength: nat) returns (bytesWritten: nat, failed: bool)
      requires 0 < maxLength <= |buffer| && space > 0
      modifies this`written, this`space
      ensures failed ==> fails && written == old(written) && space == old(space)
      ensures !failed ==> 0 < bytesWritten <= maxLength && bytesWritten <= old(space)
      ensures !failed ==> written == old(written) + buffer[..bytesWritten] && space == old(space) - bytesWritten
    {
      bytesWritten, failed := 0, false;
      if fails { failed := *; }
      if !failed {
        bytesWritten :| 0 < bytesWritten <= maxLength && bytesWritten <= space;
        written, space := written + buffer[..bytesWritten], space - bytesWritten;
      }
    }

    /** The write loop: offers what is left until everything is taken or the stream is full. */
    method WriteAll(data: Bytes) returns (failed: bool)
      modifies this
      ensures Wrote(old(State()), State(), data, !failed) && (failed ==> fails)
    {
      var buffer := data;
      var bytesToWrite: nat := |buffer|;
      var available := HasSpaceAvailable();
      while bytesToWrite > 0 && available
        invariant |data| >= bytesToWrite && (bytesToWrite > 0 ==> buffer == data[|data| - bytesToWrite..])
        invariant available <==> space > 0
        invariant written == old(written) + data[..|data| - bytesToWrite] && dropped == old(dropped)
        invariant space + |data| - bytesToWrite >= old(space)
        invariant !refills ==> space + |data| - bytesToWrite == old(space)
        decreases bytesToWrite
      {
        var bytesWritten;
        bytesWritten, failed := Write(buffer, bytesToWrite);
        if failed {
          assert WroteFirst(old(State()), State(), data, |data| - bytesToWrite, false);
          return;
        }
        bytesToWrite := bytesToWrite - bytesWritten;
        if bytesToWrite > 0 { buffer := buffer[bytesWritten..]; }
        available := HasSpaceAvailable();
      }
      dropped := dropped + bytesToWrite;
      assert WroteFirst(old(State()), State(), data, |data| - bytesToWrite, true);
      return false;
    }
  }

  lemma Regroup(a: Bytes, b: Bytes, c: Bytes, d: Bytes)
    ensures a + (b + c + d) == a + b + c + d && a + (b + (c + d)) == a + b + c + d && a + b + (c + d) == a + b + c + d
  {
  }

  class BodyPart {
    const headers: seq<Header>
    const bodyStream: InputStream
    var hasInitialBoundary: bool
    var hasFinalBoundary: bool

    constructor (headers: seq<Header>, bodyStream: InputStream)
      ensures this.headers == headers && this.bodyStream == bodyStream
      ensures !hasInitialBoundary && !hasFinalBoundary
    {
      this.headers, this.bodyStream := headers, bodyStream;
      hasInitialBoundary, hasFinalBoundary := false, false;
    }

    ghost function Piece(): Piece
      reads this, bodyStream
    {
      MultipartFormData.Piece(Part(headers, bodyStream.remaining), hasInitialBoundary, hasFinalBoundary)
    }

    /** The errors of streams that can fail. */
    predicate CanReport(error: MultipartError, out: OutputStream) {
      (error == InputStreamReadFailed && bodyStream.fails) || (error == OutputStreamWriteFailed && out.fails)
    }

    method EncodeBodyStream() returns (r: Encoded)
      modifies bodyStream
      ensures r.Success? ==> r.data == old(bodyStream.remaining) && bodyStream.remaining == []
      ensures r.Failure? ==> r.error == InputStreamReadFailed && bodyStream.fails
    {
      var encoded: Bytes := [];
      var available := bodyStream.HasBytesAvailable();
      while available
        invariant encoded + bodyStream.remaining == old(bodyStream.remaining)
        invariant !available ==> bodyStream.remaining == []
        decreases |bodyStream.remaining|, available
      {
        var buffer := seq(STREAM_BUFFER_SIZE, _ => 0);
        var bytesRead, failed;
        buffer, bytesRead, failed := bodyStream.Read(buffer, STREAM_BUFFER_SIZE);
        if failed { return Failure(InputStreamReadFailed); }
        if bytesRead > 0 {
          encoded := encoded + buffer[..bytesRead];
        } else {
          break;
        }
        available := bodyStream.HasBytesAvailable();
      }
      return Success(encoded);
    }

    method Encode(boundary: Bytes) returns (r: Encoded)
      modifies bodyStream
      ensures r.Success? ==> r.data == EncodePiece(old(Piece()), boundary) && bodyStream.remaining == []
      ensures r.Failure? ==> r.error == InputStreamReadFailed && bodyStream.fails
    {
      var encoded := if hasInitialBoundary then InitialBoundary(boundary) else EncapsulatedBoundary(boundary);
      encoded := encoded + EncodeHeaders(headers);
      var body := EncodeBodyStream();
      if body.Failure? { return body; }
      encoded := encoded + body.data;
      if hasFinalBoundary { encoded := encoded + FinalBoundary(boundary); }
      return Success(encoded);
    }

    method WriteInitialBoundaryData(boundary: Bytes, out: OutputStream) returns (failed: bool)
      modifies out
      ensures Wrote(old(out.State()), out.State(), Opening(Piece(), boundary), !failed) && (failed ==> out.fails)
      ensures Opening(Piece(), boundary) == if hasInitialBoundary then [45, 45] + boundary + [13, 10]
                                            else [13, 10, 45, 45] + boundary + [13, 10]
    {
      var initialData := if hasInitialBoundary then InitialBoundary(boundary) else EncapsulatedBoundary(boundary);
      failed := out.WriteAll(initialData);
    }

    method WriteFinalBoundaryData(boundary: Bytes, out: OutputStream) returns (failed: bool)
      modifies out
      ensures Wrote(old(out.State()), out.State(), Closing(Piece(), boundary), !failed) && (failed ==> out.fails)
      ensures Closing(Piece(), boundary) == if hasFinalBoundary then [13, 10, 45, 45] + boundary + [45, 45, 13, 10]
                                            else []
    {
      WroteNothing(out.State());
      failed := false;
      if hasFinalBoundary { failed := out.WriteAll(FinalBoundary(boundary)); }
    }

    method WriteBodyStream(out: OutputStream) returns (error: Option<MultipartError>)
      modifies bodyStream, out
      ensures Wrote(old(out.State()), out.State(), old(bodyStream.remaining), error.None?)
      ensures error.None? ==> bodyStream.remaining == []
      ensures error.Some? ==> CanReport(error.value, out)
    {
      ghost var body, s0 := bodyStream.remaining, out.State();
      ghost var done: Bytes := [];
      WroteNothing(s0);
      var available := bodyStream.HasBytesAvailable();
      while available
        invariant done + bodyStream.remaining == body
        invariant Wrote(s0, out.State(), done, true)
        invariant !available ==> bodyStream.remaining == []
        decreases |bodyStream.remaining|, available
      {
        var buffer := seq(STREAM_BUFFER_SIZE, _ => 0);
        var bytesRead, failed;
        ghost var left, s1 := bodyStream.remaining, out.State();
        buffer, bytesRead, failed := bodyStream.Read(buffer, STREAM_BUFFER_SIZE);
        if failed {
          WroteLess(s0, s1, done, left, true);
          return Some(InputStreamReadFailed);
        }
        if bytesRead > 0 {
          if |buffer| != bytesRead { buffer := buffer[..bytesRead]; }
          assert buffer == left[..bytesRead];
          failed := out.WriteAll(buffer);
          ChunkWritten(s0, s1, out.State(), done, left, bytesRead, !failed);
          if failed { return Some(OutputStreamWriteFailed); }
          done := done + left[..bytesRead];
        } else {
          break;
        }
        available := bodyStream.HasBytesAvailable();
      }
      assert done == body;
      return None;
    }

    method Write(boundary: Bytes, out: OutputStream) returns (error: Option<MultipartError>)
      modifies bodyStream, out
      ensures Wrote(old(out.State()), out.State(), EncodePiece(old(Piece()), boundary), error.None?)
      ensures error.None? ==> bodyStream.remaining == []
      ensures error.Some? ==> CanReport(error.value, out)
    {
      ghost var p, s0 := Piece(), out.State();
      ghost var a, b, c, d := Opening(p, boundary), EncodeHeaders(headers), bodyStream.remaining, Closing(p, boundary);
      var failed := WriteInitialBoundaryData(boundary, out);
      ghost var s1 := out.State();
      if failed {
        WroteLess(s0, s1, a, b + c + d, false);
        Regroup(a, b, c, d);
        return Some(OutputStreamWriteFailed);
      }
      failed := out.WriteAll(EncodeHeaders(headers));
      ghost var s2 := out.State();
      WroteStep(s0, s1, a, s2, b, !failed, c + d);
      if failed {
        Regroup(a, b, c, d);
        return Some(OutputStreamWriteFailed);
      }
      error := WriteBodyStream(out);
      ghost var s3 := out.State();
      WroteStep(s0, s2, a + b, s3, c, error.None?, d);
      if error.Some? {
        Regroup(a, b, c, d);
        return;
      }
      failed := WriteFinalBoundaryData(boundary, out);
      WroteThen(s0, s3, a + b + c, out.State(), d, !failed);
      if failed { return Some(OutputStreamWriteFailed); }
    }
  }

  ghost function Pieces(parts: seq<BodyPart>): (ps: seq<Piece>)
    reads parts, set i | 0 <= i < |parts| :: parts[i].bodyStream
    ensures |ps| == |parts| && forall i | 0 <= i < |ps| :: ps[i] == parts[i].Piece()
  {
    if parts == [] then [] else Pieces(parts[..|parts| - 1]) + [parts[|parts| - 1].Piece()]
  }

  lemma {:induction false} EncodeConcat(ps: seq<Piece>, qs: seq<Piece>, b: Bytes)
    ensures EncodePieces(ps + qs, b) == EncodePieces(ps, b) + EncodePieces(qs, b)
  {
    if ps == [] {
      assert ps + qs == qs;
    } else {
      assert (ps + qs)[1..] == ps[1..] + qs;
      EncodeConcat(ps[1..], qs, b);
      Assoc(EncodePiece(ps[0], b), EncodePieces(ps[1..], b), EncodePieces(qs, b));
    }
  }

  lemma Assoc(a: Bytes, b: Bytes, c: Bytes)
    ensures a + (b + c) == a + b + c
  {
  }

  lemma EncodeNone(ps: seq<Piece>, b: Bytes)
    ensures EncodePieces(ps[..0], b) == []
  {
  }

  lemma EncodeOne(p: Piece, b: Bytes)
    ensures EncodePieces([p], b) == EncodePiece(p, b)
  {
    assert EncodePieces([p][1..], b) == [];
  }

  lemma EncodeUpTo(ps: seq<Piece>, i: nat, b: Bytes)
    requires i < |ps|
    ensures EncodePieces(ps[..i + 1], b) == EncodePieces(ps[..i], b) + EncodePiece(ps[i], b)
    ensures EncodePieces(ps, b) == EncodePieces(ps[..i], b) + (EncodePiece(ps[i], b) + EncodePieces(ps[i + 1..], b))
  {
    assert ps[..i + 1] == ps[..i] + [ps[i]] && ps == ps[..i + 1] + ps[i + 1..];
    EncodeConcat(ps[..i], [ps[i]], b);
    EncodeOne(ps[i], b);
    EncodeConcat(ps[..i + 1], ps[i + 1..], b);
    Assoc(EncodePieces(ps[..i], b), EncodePiece(ps[i], b), EncodePieces(ps[i + 1..], b));
  }

  lemma PieceWritten(s0: Sink, s1: Sink, s2: Sink, m: seq<Piece>, i: nat, b: Bytes, ok: bool)
    requires i < |m| && Wrote(s0, s1, EncodePieces(m[..i], b), true) && Wrote(s1, s2, EncodePiece(m[i], b), ok)
    ensures if ok then Wrote(s0, s2, EncodePieces(m[..i + 1], b), true) else Wrote(s0, s2, EncodePieces(m, b), false)
  {
    WroteStep(s0, s1, EncodePieces(m[..i], b), s2, EncodePiece(m[i], b), ok, EncodePieces(m[i + 1..], b));
    EncodeUpTo(m, i, b);
  }

  class MultipartForm {
    const boundary: Bytes
    var bodyParts: seq<BodyPart>
    var bodyPartError: Option<MultipartError>

    constructor (boundary: Bytes)
      ensures Valid() && this.boundary == boundary && bodyParts == [] && bodyPartError == None
    {
      this.boundary, bodyParts, bodyPartError := boundary, [], None;
    }

    /** No part and no stream occurs twice. */
    ghost predicate Valid()
      reads this
    {
      forall i, j | 0 <= i < j < |bodyParts| ::
        bodyParts[i] != bodyParts[j] && bodyParts[i].bodyStream != bodyParts[j].bodyStream
    }

    /** No input stream can fail. */
    ghost predicate Sound()
      reads this
    {
      forall i | 0 <= i < |bodyParts| :: !bodyParts[i].bodyStream.fails
    }

    ghost function Streams(): set<InputStream>
      reads this
    {
      set i | 0 <= i < |bodyParts| :: bodyParts[i].bodyStream
    }

    method Append(stream: InputStream, headers: seq<Header>)
      requires Valid() && stream !in Streams()
      modifies this
      ensures Valid() && bodyPartError == old(bodyPartError)
      ensures Pieces(bodyParts) == old(Pieces(bodyParts)) + [Piece(Part(headers, stream.remaining), false, false)]
    {
      var bodyPart := new BodyPart(headers, stream);
      bodyParts := bodyParts + [bodyPart];
    }

    method MarkBoundaries()
      requires Valid()
      modifies bodyParts
      ensures Pieces(bodyParts) == Marked(old(Pieces(bodyParts)))
    {
      if bodyParts != [] {
        bodyParts[0].hasInitialBoundary := true;
        bodyParts[|bodyParts| - 1].hasFinalBoundary := true;
      }
    }

    method EncodeParts() returns (r: Encoded)
      requires Valid()
      modifies Streams()
      ensures r.Success? ==> r.data == EncodePieces(old(Pieces(bodyParts)), boundary)
      ensures r.Failure? ==> r.error == InputStreamReadFailed && !Sound()
    {
      hide EncodePiece, EncodePieces;
      ghost var m := Pieces(bodyParts);
      var encoded: Bytes := [];
      EncodeNone(m, boundary);
      for i := 0 to |bodyParts|
        invariant forall j | i <= j < |bodyParts| :: bodyParts[j].Piece() == m[j]
        invariant encoded == EncodePieces(m[..i], boundary)
      {
        EncodeUpTo(m, i, boundary);
        var encodedData := bodyParts[i].Encode(boundary);
        if encodedData.Failure? { return encodedData; }
        encoded := encoded + encodedData.data;
      }
      assert m[..|bodyParts|] == m;
      return Success(encoded);
    }

    method Encode() returns (r: Encoded)
      requires Valid()
      modifies bodyParts, Streams()
      ensures Valid() && (bodyPartError.Some? ==> r == Failure(bodyPartError.value))
      ensures r.Success? ==> r.data == EncodePieces(Marked(old(Pieces(bodyParts))), boundary)
      ensures bodyPartError.None? && r.Failure? ==> r.error == InputStreamReadFailed && !Sound()
      ensures bodyPartError.None? && Sound() ==> r == Success(EncodePieces(Marked(old(Pieces(bodyParts))), boundary))
    {
      if bodyPartError.Some? { return Failure(bodyPartError.value); }
      MarkBoundaries();
      r := EncodeParts();
    }

    method WriteParts(out: OutputStream) returns (error: Option<MultipartError>)
      requires Valid()
      modifies Streams(), out
      ensures Wrote(old(out.State()), out.State(), EncodePieces(old(Pieces(bodyParts)), boundary), error.None?)
      ensures error.Some? ==>
        (error.value == InputStreamReadFailed && !Sound()) || (error.value == OutputStreamWriteFailed && out.fails)
    {
      hide EncodePiece, EncodePieces;
      ghost var m, s0 := Pieces(bodyParts), out.State();
      WroteNothing(s0);
      EncodeNone(m, boundary);
      for i := 0 to |bodyParts|
        invariant forall j | i <= j < |bodyParts| :: bodyParts[j].Piece() == m[j]
        invariant Wrote(s0, out.State(), EncodePieces(m[..i], boundary), true)
      {
        ghost var s1 := out.State();
        error := bodyParts[i].Write(boundary, out);
        PieceWritten(s0, s1, out.State(), m, i, boundary, error.None?);
        if error.Some? { return; }
      }
      assert m[..|bodyParts|] == m;
      return None;
    }

    /** `out` is null when the output stream could not be created. */
    method WriteEncodedData(fileExists: bool, isFileURL: bool, out: OutputStream?)
      returns (error: Option<MultipartError>)
      requires Valid()
      modifies bodyParts, Streams(), if out == null then {} else {out}
      ensures Valid() && (bodyPartError.Some? ==> error == bodyPartError)
      ensures bodyPartError.None? ==>
        && (fileExists ==> error == Some(OutputStreamFileAlreadyExists))
        && (!fileExists && !isFileURL ==> error == Some(OutputStreamURLInvalid))
        && (!fileExists && isFileURL && out == null ==> error == Some(OutputStreamCreationFailed))
      ensures error.None? ==> out != null
      ensures bodyPartError.None? && !fileExists && isFileURL && out != null && error.Some? ==>
        (error.value == InputStreamReadFailed && !Sound()) || (error.value == OutputStreamWriteFailed && out.fails)
      ensures bodyPartError.None? && !fileExists && isFileURL && out != null && Sound() && !out.fails ==> error.None?
      ensures error.None? && |EncodePieces(Marked(old(Pieces(bodyParts))), boundary)| <= old(out.space) ==>
        out.written == old(out.written) + EncodePieces(Marked(old(Pieces(bodyParts))), boundary)
      ensures out != null ==>
        Wrote(old(out.State()), out.State(), EncodePieces(Marked(old(Pieces(bodyParts))), boundary), error.None?)
    {
      if out != null { WroteNone(out.State(), EncodePieces(Marked(Pieces(bodyParts)), boundary)); }
      if bodyPartError.Some? { return bodyPartError; }
      if fileExists { return Some(OutputStreamFileAlreadyExists); }
      if !isFileURL { return Some(OutputStreamURLInvalid); }
      if out == null { return Some(OutputStreamCreationFailed); }
      ghost var s0, form := out.State(), EncodePieces(Marked(Pieces(bodyParts)), boundary);
      MarkBoundaries();
      error := WriteParts(out);
      if error.None? { StreamedIffRoom(s0, out.State(), form); }
    }
  }
}
