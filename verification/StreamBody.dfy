/**
 * Single-consumption stream bodies: clones share one cell, `IntoBytes` and the asynchronous
 * reader both take the stream out of it.
 */
module StreamBody {
  import opened Text

  type Bytes = string

  datatype Error =
    | AlreadyConsumed
    | LimitExceeded(limit: nat)
    | ConversionFailed
    | SourceFailed(text: string)

  datatype Result = Ok(bytes: Bytes) | Err(error: Error)

  /** What a stream yields next. */
  datatype Chunk = Data(bytes: Bytes) | Fail(error: Error)

  type Stream = seq<Chunk>

  // ---- collecting a stream ----

  /** The rest of a collection that has `buffer` already. */
  function Collect(stream: Stream, buffer: Bytes, limit: nat): Result {
    if stream == [] then Ok(buffer)
    else
      match stream[0]
      case Fail(e) => Err(e)
      case Data(b) =>
        if |buffer| + |b| > limit then Err(LimitExceeded(limit))
        else Collect(stream[1..], buffer + b, limit)
  }

  /** All data of a stream; failed chunks hold none. */
  function Concat(stream: Stream): Bytes {
    if stream == [] then [] else (if stream[0].Data? then stream[0].bytes else []) + Concat(stream[1..])
  }

  /** The collection cannot get past chunk `k`. */
  predicate StopsAt(stream: Stream, size: nat, limit: nat, k: nat)
    requires k < |stream|
  {
    stream[k].Fail? || size + |Concat(stream[..k + 1])| > limit
  }

  function StopError(stream: Stream, limit: nat, k: nat): Error
    requires k < |stream|
  {
    if stream[k].Fail? then stream[k].error else LimitExceeded(limit)
  }

  lemma ConcatCons(stream: Stream, k: nat)
    requires 0 < k <= |stream|
    ensures Concat(stream[..k]) == (if stream[0].Data? then stream[0].bytes else []) + Concat(stream[1..][..k - 1])
  {
    assert stream[..k][1..] == stream[1..][..k - 1];
  }

  lemma {:induction false} CollectStops(stream: Stream, buffer: Bytes, limit: nat, k: nat)
    requires k < |stream| && StopsAt(stream, |buffer|, limit, k)
    requires forall j: nat | j < k :: !StopsAt(stream, |buffer|, limit, j)
    ensures Collect(stream, buffer, limit) == Err(StopError(stream, limit, k))
  {
    ConcatCons(stream, 1);
    assert Concat(stream[1..][..0]) == [];
    if k > 0 {
      assert !StopsAt(stream, |buffer|, limit, 0);
      var b := stream[0].bytes;
      forall j: nat | j < k
        ensures StopsAt(stream[1..], |buffer + b|, limit, j) <==> StopsAt(stream, |buffer|, limit, j + 1)
      {
        ConcatCons(stream, j + 2);
      }
      CollectStops(stream[1..], buffer + b, limit, k - 1);
    }
  }

  lemma {:induction false} CollectSucceeds(stream: Stream, buffer: Bytes, limit: nat)
    requires forall j: nat | j < |stream| :: !StopsAt(stream, |buffer|, limit, j)
    ensures Collect(stream, buffer, limit) == Ok(buffer + Concat(stream))
  {
    if stream != [] {
      assert !StopsAt(stream, |buffer|, limit, 0);
      ConcatCons(stream, 1);
      assert Concat(stream[1..][..0]) == [];
      var b := stream[0].bytes;
      forall j: nat | j < |stream| - 1
        ensures !StopsAt(stream[1..], |buffer + b|, limit, j)
      {
        assert !StopsAt(stream, |buffer|, limit, j + 1);
        ConcatCons(stream, j + 2);
      }
      CollectSucceeds(stream[1..], buffer + b, limit);
    }
  }

  lemma {:induction false} PrefixIsShorter(stream: Stream, k: nat)
    requires k <= |stream|
    ensures |Concat(stream[..k])| <= |Concat(stream)|
  {
    if k > 0 {
      ConcatCons(stream, k);
      PrefixIsShorter(stream[1..], k - 1);
    }
  }

  /** Every chunk is data and the total fits. */
  predicate Fits(stream: Stream, limit: nat) {
    (forall j | 0 <= j < |stream| :: stream[j].Data?) && |Concat(stream)| <= limit
  }

  lemma FitsNeverStops(stream: Stream, limit: nat)
    ensures Fits(stream, limit) <==> forall j: nat | j < |stream| :: !StopsAt(stream, 0, limit, j)
  {
    if Fits(stream, limit) {
      forall j: nat | j < |stream|
        ensures !StopsAt(stream, 0, limit, j)
      {
        PrefixIsShorter(stream, j + 1);
      }
    } else if forall j | 0 <= j < |stream| :: stream[j].Data? {
      var last := |stream| - 1;
      assert stream[..last + 1] == stream;
      assert StopsAt(stream, 0, limit, last);
    } else {
      var j: nat :| j < |stream| && stream[j].Fail?;
      assert StopsAt(stream, 0, limit, j);
    }
  }

  /** The first chunk a collection cannot get past, if any. */
  lemma FirstStop(stream: Stream, limit: nat, n: nat) returns (k: nat)
    requires n <= |stream|
    ensures k <= n
    ensures k < n ==> StopsAt(stream, 0, limit, k)
    ensures forall j: nat | j < k :: !StopsAt(stream, 0, limit, j)
  {
    k := 0;
    while k < n && !StopsAt(stream, 0, limit, k)
      invariant k <= n
      invariant forall j: nat | j < k :: !StopsAt(stream, 0, limit, j)
    {
      k := k + 1;
    }
  }

  /**
   * Collecting yields the concatenation exactly when no chunk fails and the total stays within
   * the limit; otherwise the first failure in stream order.
   */
  lemma CollectMeaning(stream: Stream, limit: nat)
    ensures Fits(stream, limit) ==> Collect(stream, [], limit) == Ok(Concat(stream))
    ensures !Fits(stream, limit) ==>
              exists k: nat | k < |stream| ::
                && StopsAt(stream, 0, limit, k) && (forall j: nat | j < k :: !StopsAt(stream, 0, limit, j))
                && Collect(stream, [], limit) == Err(StopError(stream, limit, k))
  {
    var k := FirstStop(stream, limit, |stream|);
    FitsNeverStops(stream, limit);
    if k == |stream| {
      CollectSucceeds(stream, [], limit);
    } else {
      CollectStops(stream, [], limit, k);
    }
  }

  // ---- reading a stream piece by piece ----

  /** A stream being read: what is left, the unread part of the current chunk, and what was delivered. */
  datatype Source = Source(rest: Stream, current: Bytes, out: Bytes)

  datatype Read = Got(bytes: Bytes) | EndOfStream | ReadFailed(error: Error)

  /** Fill a buffer of `n` bytes from the current chunk, fetching chunks while it is empty. */
  function ReadSome(src: Source, n: nat): (Source, Read)
    decreases |src.rest|
  {
    if n == 0 then (src, Got([]))
    else if src.current != [] then
      var m := if n < |src.current| then n else |src.current|;
      (Source(src.rest, src.current[m..], src.out + src.current[..m]), Got(src.current[..m]))
    else if src.rest == [] then (src, EndOfStream)
    else
      match src.rest[0]
      case Fail(e) => (src.(rest := src.rest[1..]), ReadFailed(e))
      case Data(b) => ReadSome(Source(src.rest[1..], b, src.out), n)
  }

  /** Delivered, then still to come: together always the whole stream. */
  function Whole(src: Source): Bytes {
    src.out + (src.current + Concat(src.rest))
  }

  lemma {:induction false} ReadConserves(src: Source, n: nat)
    ensures Whole(ReadSome(src, n).0) == Whole(src)
    ensures ReadSome(src, n).0.out == src.out + if ReadSome(src, n).1.Got? then ReadSome(src, n).1.bytes else []
    ensures ReadSome(src, n).1.Got? ==> |ReadSome(src, n).1.bytes| <= n
    decreases |src.rest|
  {
    if n != 0 && src.current == [] && src.rest != [] && src.rest[0].Data? {
      ReadConserves(Source(src.rest[1..], src.rest[0].bytes, src.out), n);
    }
  }

  /** A reader before its first poll, holding the stream, or told that it is gone. */
  datatype Reader = Fresh | Active(source: Source) | Refused

  datatype Poll = Pending | Ready(read: Read)

  datatype Polled = Polled(cell: Option<Stream>, reader: Reader, poll: Poll)

  /** One poll; `contended` says whether someone else holds the lock. */
  function PollReader(cell: Option<Stream>, reader: Reader, contended: bool, n: nat): Polled {
    match reader
    case Refused => Polled(cell, reader, Ready(ReadFailed(AlreadyConsumed)))
    case Fresh =>
      if contended then Polled(cell, reader, Pending)
      else if cell.None? then Polled(cell, Refused, Ready(ReadFailed(AlreadyConsumed)))
      else
        var r := ReadSome(Source(cell.value, [], []), n);
        Polled(None, Active(r.0), Ready(r.1))
    case Active(source) =>
      var r := ReadSome(source, n);
      Polled(cell, Active(r.0), Ready(r.1))
  }

  // ---- the objects ----

  /** The cell that all clones of a stream body share. */
  class StreamCell {
    var stream: Option<Stream>

    constructor (s: Stream)
      ensures stream == Some(s)
    {
      stream := Some(s);
    }
  }

  /** `Json` carries its serialisation, when there is one. */
  datatype Body =
    | Empty
    | Binary(bytes: Bytes)
    | Text(text: Bytes)
    | Json(encoded: Option<Bytes>)
    | Xml(text: Bytes)
    | Streamed(cell: StreamCell)

  function Limited(bytes: Bytes, limit: nat): Result {
    if |bytes| > limit then Err(LimitExceeded(limit)) else Ok(bytes)
  }

  /** What a body yields, given what its cell holds. */
  function BytesOf(body: Body, held: Option<Stream>, limit: nat): Result {
    match body
    case Empty => Ok([])
    case Binary(b) => Limited(b, limit)
    case Text(b) => Limited(b, limit)
    case Json(encoded) => if encoded.None? then Err(ConversionFailed) else Limited(encoded.value, limit)
    case Xml(b) => Limited(b, limit)
    case Streamed(_) => if held.None? then Err(AlreadyConsumed) else Collect(held.value, [], limit)
  }

  /** Consume the body; a stream is gone afterwards, however the call ends. */
  method IntoBytes(body: Body, limit: nat) returns (r: Result)
    modifies if body.Streamed? then {body.cell} else {}
    ensures r == BytesOf(body, old(if body.Streamed? then body.cell.stream else None), limit)
    ensures body.Streamed? ==> body.cell.stream == None
  {
    match body
    case Empty => r := Ok([]);
    case Binary(b) => r := Limited(b, limit);
    case Text(b) => r := Limited(b, limit);
    case Json(encoded) =>
      if encoded.None? {
        return Err(ConversionFailed);
      }
      r := Limited(encoded.value, limit);
    case Xml(b) => r := Limited(b, limit);
    case Streamed(cell) =>
      var taken := cell.stream;
      cell.stream := None;
      if taken.None? {
        return Err(AlreadyConsumed);
      }
      var rest, buffer: Bytes := taken.value, [];
      while rest != []
        invariant Collect(rest, buffer, limit) == Collect(taken.value, [], limit)
        decreases |rest|
      {
        var chunk := rest[0];
        rest := rest[1..];
        if chunk.Fail? {
          return Err(chunk.error);
        }
        if |buffer| + |chunk.bytes| > limit {
          return Err(LimitExceeded(limit));
        }
        buffer := buffer + chunk.bytes;
      }
      r := Ok(buffer);
  }

  class StreamAsyncRead {
    const cell: StreamCell
    var reader: Option<Source>
    var consumed: bool

    /** A refused reader never holds a stream. */
    predicate Valid()
      reads this
    {
      consumed ==> reader.None?
    }

    ghost function View(): Reader
      reads this
    {
      if consumed then Refused else if reader.Some? then Active(reader.value) else Fresh
    }

    constructor (cell: StreamCell)
      ensures Valid() && View() == Fresh && this.cell == cell
    {
      this.cell := cell;
      reader, consumed := None, false;
    }

    method PollRead(contended: bool, n: nat) returns (poll: Poll)
      requires Valid()
      modifies this, cell
      ensures Valid()
      ensures Polled(cell.stream, View(), poll) == PollReader(old(cell.stream), old(View()), contended, n)
    {
      if consumed {
        return Ready(ReadFailed(AlreadyConsumed));
      }
      if reader.None? {
        if contended {
          return Pending;
        }
        var extracted := cell.stream;
        cell.stream := None;
        if extracted.None? {
          consumed := true;
          return Ready(ReadFailed(AlreadyConsumed));
        }
        reader := Some(Source(extracted.value, [], []));
      }
      var read := ReadSome(reader.value, n);
      reader := Some(read.0);
      poll := Ready(read.1);
    }
  }
}
