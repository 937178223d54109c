/**
 Bounded buffering of a request body for replay (proxy.go, `prepareRetryBody`, `releaseRetryBody` and
 `cloneRetryRequest`).

 The incoming body is any reader at all that keeps the reader contract: it returns at most as many bytes as it
 is asked for, with or without an error, and may return nothing.
 */
module RetryBody {
  import opened Prelude
  import opened Contexts

  const BUFFER_SIZE: nat := 32 * 1024
  const MAX_EMPTY_READS: nat := 100

  type byte = b: int | 0 <= b < 256
  type Bytes = seq<byte>

  datatype ReadError = EOF | Broken(code: nat)

  datatype Read = Read(data: Bytes, err: Option<ReadError>)

  /** The result of read number `i` when asked for `size` bytes. */
  type Reader = (nat, nat) -> Read

  ghost predicate KeepsContract(reader: Reader) {
    forall i, size :: |reader(i, size).data| <= size
  }

  /** Why buffering stops. */
  datatype Reason = Complete | TooLarge | NoProgress | Failed(code: nat) | Ended(cause: Cause)

  /** A request's body: the client's own, none, or a reader over a buffered payload. */
  datatype Body = Incoming(source: Source) | NoBody | Replay(reader: PayloadReader)

  class Request {
    var body: Body
    var getBody: Option<Bytes>  // the payload that the source's closure reads from
    var contentLength: int
    var transferEncoding: bool
    var trailer: bool

    constructor (body: Body, getBody: Option<Bytes>, contentLength: int, transferEncoding: bool, trailer: bool)
      ensures this.body == body && this.getBody == getBody && this.contentLength == contentLength
      ensures this.transferEncoding == transferEncoding && this.trailer == trailer
    {
      this.body, this.getBody, this.contentLength := body, getBody, contentLength;
      this.transferEncoding, this.trailer := transferEncoding, trailer;
    }
  }

  /** The incoming body: what it answers, and what has been done to it. */
  class Source {
    const reader: Reader
    var readCount: nat
    var closeCount: nat

    constructor (reader: Reader)
      ensures this.reader == reader && readCount == 0 && closeCount == 0
    {
      this.reader := reader;
      readCount, closeCount := 0, 0;
    }

    method Read(size: nat) returns (r: Read)
      modifies this`readCount
      ensures r == reader(old(readCount), size) && readCount == old(readCount) + 1
    {
      r := reader(readCount, size);
      readCount := readCount + 1;
    }

    method Close()
      modifies this`closeCount
      ensures closeCount == old(closeCount) + 1
    {
      closeCount := closeCount + 1;
    }
  }

  /** A reader over a payload, which whoever reads from it uses up. */
  class PayloadReader {
    const payload: Bytes
    var position: nat

    constructor (payload: Bytes)
      ensures this.payload == payload && position == 0
    {
      this.payload, position := payload, 0;
    }

    method Read(size: nat) returns (data: Bytes)
      requires position <= |payload|
      modifies this`position
      ensures old(position) <= position <= |payload|
      ensures data == payload[old(position)..position] && |data| <= size
      ensures data == [] ==> size == 0 || position == |payload|
    {
      var next := if |payload| - position < size then |payload| else position + size;
      data := payload[position..next];
      position := next;
    }
  }

  // ----- What a reader amounts to, read by read

  /** The size of the next request: never more than one byte beyond the limit. */
  function ReadSize(max: nat, buffered: nat): nat {
    if buffered > max then 0 else if max - buffered + 1 < BUFFER_SIZE then max - buffered + 1 else BUFFER_SIZE
  }

  /** At least one byte, at most 32 KiB, and just enough to see whether the limit is exceeded. */
  lemma ReadSizeMeans(max: nat, buffered: nat)
    requires buffered <= max
    ensures ReadSize(max, buffered) == if max - buffered < 32_768 then max - buffered + 1 else 32_768
  {
  }

  /** The bytes of the first `k` reads. */
  function Buffered(reader: Reader, max: nat, k: nat): Bytes {
    if k == 0 then []
    else
      var front := Buffered(reader, max, k - 1);
      front + reader(k - 1, ReadSize(max, |front|)).data
  }

  function Last(reader: Reader, max: nat, k: nat): Read
    requires k > 0
  {
    reader(k - 1, ReadSize(max, |Buffered(reader, max, k - 1)|))
  }

  /** How many reads in a row, up to the `k`-th, brought nothing. */
  function EmptyReads(reader: Reader, max: nat, k: nat): nat {
    if k > 0 && Last(reader, max, k) == Read([], None) then EmptyReads(reader, max, k - 1) + 1 else 0
  }

  /** Whether the `k`-th read ends the buffering, and how. */
  function Stops(reader: Reader, max: nat, k: nat): Option<Reason>
    requires k > 0
  {
    Verdict(|Buffered(reader, max, k)| > max, EmptyReads(reader, max, k) >= MAX_EMPTY_READS, Last(reader, max, k).err)
  }

  function Verdict(tooLarge: bool, stuck: bool, err: Option<ReadError>): Option<Reason> {
    if tooLarge then Some(TooLarge)
    else if stuck then Some(NoProgress)
    else
      match err
      case None => None
      case Some(EOF) => Some(Complete)
      case Some(Broken(code)) => Some(Failed(code))
  }

  ghost predicate StillReading(reader: Reader, max: nat, k: nat) {
    forall j | 0 < j <= k :: Stops(reader, max, j).None?
  }

  lemma {:induction false} EmptyReadsAre(reader: Reader, max: nat, k: nat, m: nat)
    ensures EmptyReads(reader, max, k) >= m <==> m <= k && forall j | k - m < j <= k :: Last(reader, max, j) == Read([], None)
  {
    if k > 0 && m > 0 && Last(reader, max, k) == Read([], None) {
      EmptyReadsAre(reader, max, k - 1, m - 1);
    }
  }

  ghost predicate HundredEmpty(reader: Reader, max: nat, k: nat) {
    100 <= k && forall j | k - 100 < j <= k :: Last(reader, max, j) == Read([], None)
  }

  lemma HundredEmptyReads(reader: Reader, max: nat, k: nat)
    ensures EmptyReads(reader, max, k) >= MAX_EMPTY_READS <==> HundredEmpty(reader, max, k)
  {
    EmptyReadsAre(reader, max, k, 100);
  }

  lemma VerdictMeans(tooLarge: bool, stuck: bool, err: Option<ReadError>)
    requires stuck ==> err.None?
    ensures Verdict(tooLarge, stuck, err) == Some(TooLarge) <==> tooLarge
    ensures Verdict(tooLarge, stuck, err) == Some(NoProgress) <==> !tooLarge && stuck
    ensures Verdict(tooLarge, stuck, err) == Some(Complete) <==> !tooLarge && err == Some(EOF)
    ensures !tooLarge && err.Some? && err.value.Broken? ==> Verdict(tooLarge, stuck, err) == Some(Reason.Failed(err.value.code))
    ensures Verdict(tooLarge, stuck, err).Some? && Verdict(tooLarge, stuck, err).value.Failed? ==>
              !tooLarge && err.Some? && err.value.Broken?
    ensures Verdict(tooLarge, stuck, err).Some? ==> !Verdict(tooLarge, stuck, err).value.Ended?
  {
  }

  /**
   What each end means, in what the reader has answered: too much, a hundred empty answers in a row, the end of the
   body, or the reader's own error.
   */
  lemma StopsMeans(reader: Reader, max: nat, k: nat)
    requires k > 0
    ensures var (stop, size, err) := (Stops(reader, max, k), |Buffered(reader, max, k)|, Last(reader, max, k).err);
            && (stop == Some(TooLarge) <==> size > max)
            && (stop == Some(Complete) <==> size <= max && err == Some(EOF))
            && (stop == Some(NoProgress) <==> size <= max && HundredEmpty(reader, max, k))
            && (size <= max && err.Some? && err.value.Broken? ==> stop == Some(Reason.Failed(err.value.code)))
            && (stop.Some? && stop.value.Failed? ==> size <= max && err.Some? && err.value.Broken?)
            && (stop.Some? ==> !stop.value.Ended?)
  {
    HundredEmptyReads(reader, max, k);
    VerdictMeans(|Buffered(reader, max, k)| > max, EmptyReads(reader, max, k) >= MAX_EMPTY_READS, Last(reader, max, k).err);
  }

  /** The last answer of the source says why the buffering is over. */
  ghost predicate Explains(reader: Reader, max: nat, k: nat, reason: Reason)
    requires k > 0
  {
    var size, err := |Buffered(reader, max, k)|, Last(reader, max, k).err;
    && (reason == Complete ==> err == Some(EOF))
    && (reason.Failed? ==> err == Some(Broken(reason.code)))
    && (reason == NoProgress ==> HundredEmpty(reader, max, k))
    && (reason == TooLarge ==> size > max)
    && (size <= max && err.Some? ==> reason == if err.value.EOF? then Complete else Reason.Failed(err.value.code))
  }

  /** A reader that has not been stopped has made at most 100 reads for each byte, and the empty ones since. */
  lemma {:induction false} ReadsAreBounded(reader: Reader, max: nat, k: nat)
    requires StillReading(reader, max, k)
    ensures |Buffered(reader, max, k)| <= max
    ensures k <= MAX_EMPTY_READS * |Buffered(reader, max, k)| + EmptyReads(reader, max, k)
    ensures EmptyReads(reader, max, k) < MAX_EMPTY_READS
  {
    if k > 0 {
      ReadsAreBounded(reader, max, k - 1);
      assert Stops(reader, max, k).None?;
      assert Last(reader, max, k).err.None?;
      if |Last(reader, max, k).data| == 0 {
        assert Last(reader, max, k) == Read([], None);
      }
    }
  }

  /** Every reader is stopped, by its own doing or not, within 100 reads for each byte of the limit and one. */
  lemma EveryReaderStops(reader: Reader, max: nat) returns (k: nat)
    ensures 0 < k <= MAX_EMPTY_READS * (max + 1)
    ensures StillReading(reader, max, k - 1) && Stops(reader, max, k).Some?
    ensures forall j | 0 < j && StillReading(reader, max, j - 1) && Stops(reader, max, j).Some? :: j == k
  {
    k := 1;
    while Stops(reader, max, k).None?
      invariant 0 < k && StillReading(reader, max, k - 1)
      invariant k <= MAX_EMPTY_READS * (max + 1)
      decreases MAX_EMPTY_READS * (max + 1) - k
    {
      ReadsAreBounded(reader, max, k);
      k := k + 1;
    }
  }

  /**
   The reader hands out this content, in pieces of any size: a read that is asked for something brings something, and
   the end comes with the last piece or after it.
   */
  ghost predicate Serves(reader: Reader, max: nat, content: Bytes) {
    forall k: nat :: ServesAt(reader, max, content, k)
  }

  ghost predicate ServesAt(reader: Reader, max: nat, content: Bytes, k: nat) {
    var front := Buffered(reader, max, k);
    front <= content ==>
      var r := Last(reader, max, k + 1);
      && front + r.data <= content
      && (r.err.None? || r.err == Some(EOF)) && (r.err.Some? ==> front + r.data == content)
      && (r.err.None? && ReadSize(max, |front|) > 0 ==> r.data != [])
  }

  lemma {:induction false} ServedSoFar(reader: Reader, max: nat, content: Bytes, k: nat)
    requires Serves(reader, max, content)
    ensures Buffered(reader, max, k) <= content
  {
    if k > 0 {
      ServedSoFar(reader, max, content, k - 1);
      assert ServesAt(reader, max, content, k - 1);
    }
  }

  /** A content is buffered whole if it fits the limit, and otherwise found to be too large, however it is handed out. */
  lemma AcceptedExactlyWhenItFits(reader: Reader, max: nat, content: Bytes, k: nat)
    requires Serves(reader, max, content) && k > 0 && StillReading(reader, max, k - 1) && Stops(reader, max, k).Some?
    ensures |content| <= max ==> Stops(reader, max, k) == Some(Complete) && Buffered(reader, max, k) == content
    ensures |content| > max ==> Stops(reader, max, k) == Some(TooLarge)
  {
    ReadsAreBounded(reader, max, k - 1);
    ServedSoFar(reader, max, content, k - 1);
    ServedSoFar(reader, max, content, k);
    assert ServesAt(reader, max, content, k - 1);
    assert Buffered(reader, max, k) == Buffered(reader, max, k - 1) + Last(reader, max, k).data;
    assert EmptyReads(reader, max, k) == 0;
  }

  // ----- The buffering

  /** One read, and what it adds to the payload.  `sample` is the number of the look at the context that follows it. */
  method TakeChunk(source: Source, ctx: Context, max: nat, payload: Bytes, emptyReads: nat, sample: nat)
    returns (reason: Option<Reason>, longer: Bytes, empty: nat)
    requires KeepsContract(source.reader) && |payload| <= max
    requires payload == Buffered(source.reader, max, source.readCount)
    requires emptyReads == EmptyReads(source.reader, max, source.readCount) < MAX_EMPTY_READS
    modifies source`readCount
    ensures source.readCount == old(source.readCount) + 1
    ensures |Buffered(source.reader, max, source.readCount)| <= max + 1
    ensures reason == if ctx.Err(sample).Some? then Some(Ended(ctx.cause)) else Stops(source.reader, max, source.readCount)
    ensures reason.None? || reason.value == Complete ==>
              longer == Buffered(source.reader, max, source.readCount) && |longer| <= max
    ensures reason.None? ==> empty == EmptyReads(source.reader, max, source.readCount) < MAX_EMPTY_READS
  {
    longer, empty := payload, emptyReads;
    var remaining := max - |payload|;
    var size := if remaining + 1 < BUFFER_SIZE then remaining + 1 else BUFFER_SIZE;
    var read := source.Read(size);
    assert read == Last(source.reader, max, source.readCount);
    if ctx.Err(sample).Some? { return Some(Ended(ctx.cause)), longer, empty; }
    if |read.data| > remaining { return Some(TooLarge), longer, empty; }
    longer := payload + read.data;
    if |read.data| == 0 && read.err.None? {
      empty := emptyReads + 1;
      if empty == MAX_EMPTY_READS { return Some(NoProgress), longer, empty; }
    } else {
      empty := 0;
    }
    match read.err
    case None => reason := None;
    case Some(EOF) => reason := Some(Complete);
    case Some(Broken(code)) => reason := Some(Reason.Failed(code));
  }

  /**
   Buffers the whole body, or gives up, within 100 * (max + 1) reads.  Unless the context ends, the verdict is
   the reader's first stop; a context that has ended by the last sample takes precedence.
   */
  method Fill(source: Source, ctx: Context, max: nat, first: nat) returns (reason: Reason, payload: Bytes, samples: nat)
    requires KeepsContract(source.reader) && source.readCount == 0
    modifies source`readCount
    ensures source.readCount <= MAX_EMPTY_READS * (max + 1)
    ensures |Buffered(source.reader, max, source.readCount)| <= max + 1
    ensures samples > first
    ensures reason.Ended? <==> ctx.Err(samples - 1) == Some(ctx.cause)
    ensures reason.Ended? ==>
              && reason.cause == ctx.cause
              && StillReading(source.reader, max, if source.readCount == 0 then 0 else source.readCount - 1)
    ensures !reason.Ended? ==>
              && source.readCount > 0 && StillReading(source.reader, max, source.readCount - 1)
              && Stops(source.reader, max, source.readCount) == Some(reason)
    ensures !reason.Ended? ==> Explains(source.reader, max, source.readCount, reason)
    ensures reason == Complete ==> payload == Buffered(source.reader, max, source.readCount) && |payload| <= max
  {
    payload, samples := [], first;
    var emptyReads := 0;
    while true
      invariant payload == Buffered(source.reader, max, source.readCount) && |payload| <= max
      invariant emptyReads == EmptyReads(source.reader, max, source.readCount) < MAX_EMPTY_READS
      invariant StillReading(source.reader, max, source.readCount) && samples >= first
      decreases max - |payload|, MAX_EMPTY_READS - emptyReads
    {
      ReadsAreBounded(source.reader, max, source.readCount);
      if ctx.Err(samples).Some? { return Ended(ctx.cause), payload, samples + 1; }
      samples := samples + 2;
      var stop;
      stop, payload, emptyReads := TakeChunk(source, ctx, max, payload, emptyReads, samples - 1);
      if stop.Some? {
        StopsMeans(source.reader, max, source.readCount);
        return stop.value, payload, samples;
      }
    }
  }

  /** What an attempt finds when it starts to read its body. */
  datatype Start = Raw | Without | At(payload: Bytes, position: nat)

  function StartOf(body: Body): Start
    reads if body.Replay? then {body.reader} else {}
  {
    match body
    case Incoming(_) => Raw
    case NoBody => Without
    case Replay(reader) => At(reader.payload, reader.position)
  }

  /** Later attempts can be given the same start as the first one, whatever the first has read. */
  ghost predicate Replayable(request: Request, start: Start)
    reads request
  {
    match start
    case Without => request.body == NoBody && request.getBody == None
    case At(payload, position) => position == 0 && request.getBody == Some(payload)
    case Raw => false
  }

  /** The request as its first attempt takes it. */
  ghost predicate Prepared(request: Request, start: Start)
    reads request, if request.body.Replay? then {request.body.reader} else {}
  {
    Replayable(request, start) && StartOf(request.body) == start
  }

  /** The replayable request, or the reason there is none.  The incoming body is closed exactly once either way. */
  method PrepareRetryBody(request: Request, ctx: Context, max: nat) returns (reason: Reason)
    requires request.body.Incoming? && KeepsContract(request.body.source.reader) && request.body.source.readCount == 0
    modifies request, request.body.source
    ensures var source := old(request.body.source);
            && source.closeCount == old(request.body.source.closeCount) + 1
            && source.readCount <= MAX_EMPTY_READS * (max + 1)
            && |Buffered(source.reader, max, source.readCount)| <= max + 1
    ensures reason == Complete ==>
              && old(request.contentLength) <= max && StoppedBy(old(request.body.source), max, Complete)
              && var payload := Buffered(old(request.body.source).reader, max, old(request.body.source).readCount);
                 && request.body.Replay? && fresh(request.body.reader) && Prepared(request, At(payload, 0))
                 && request.contentLength == |payload| <= max
                 && !request.transferEncoding && !request.trailer
    ensures reason != Complete ==> request.body == NoBody && request.getBody == None
    ensures old(request.contentLength) > max ==> old(request.body.source).readCount == 0 && (reason.Ended? || reason == TooLarge)
    ensures !reason.Ended? && old(request.body.source).readCount > 0 ==>
              Explains(old(request.body.source).reader, max, old(request.body.source).readCount, reason)
    ensures !reason.Ended? && old(request.body.source).readCount == 0 ==>
              reason == TooLarge && old(request.contentLength) > max
    ensures reason.Ended? ==> ctx.endsAt.Some? && reason.cause == ctx.cause
    ensures ctx.endsAt.None? && old(request.contentLength) <= max ==> StoppedBy(old(request.body.source), max, reason)
    ensures ctx.endsAt == Some(0) ==> reason == Ended(ctx.cause) && old(request.body.source).readCount == 0
  {
    var source := request.body.source;
    var payload: Bytes := [];
    if ctx.Err(0).Some? {
      reason := Ended(ctx.cause);
    } else if request.contentLength > max {
      reason := if ctx.Err(1).Some? then Ended(ctx.cause) else TooLarge;
    } else {
      var samples;
      reason, payload, samples := Fill(source, ctx, max, 1);
    }
    if reason == Complete {
      var reader := new PayloadReader(payload);
      request.body, request.getBody := Replay(reader), Some(payload);
      request.contentLength, request.transferEncoding, request.trailer := |payload|, false, false;
    } else {
      request.body, request.getBody := NoBody, None;
    }
    source.Close();
  }

  /** The last read of the source was the first one that ends the buffering, for this reason. */
  ghost predicate StoppedBy(source: Source, max: nat, reason: Reason)
    reads source
  {
    && source.readCount > 0 && StillReading(source.reader, max, source.readCount - 1)
    && Stops(source.reader, max, source.readCount) == Some(reason)
  }

  /** The request of an additional attempt: a fresh reader if there is a payload, and otherwise the very same body. */
  method CloneRetryRequest(request: Request) returns (outgoing: Request)
    ensures fresh(outgoing) && outgoing.getBody == request.getBody && outgoing.contentLength == request.contentLength
    ensures outgoing.transferEncoding == request.transferEncoding && outgoing.trailer == request.trailer
    ensures request.getBody.None? ==> outgoing.body == request.body
    ensures request.getBody.Some? ==>
              && outgoing.body.Replay? && fresh(outgoing.body.reader)
              && StartOf(outgoing.body) == At(request.getBody.value, 0)
  {
    var body := request.body;
    if request.getBody.Some? {
      var reader := new PayloadReader(request.getBody.value);
      body := Replay(reader);
    }
    outgoing := new Request(body, request.getBody, request.contentLength, request.transferEncoding, request.trailer);
  }

  method ReleaseRetryBody(request: Request)
    modifies request`body, request`getBody
    ensures request.body == NoBody && request.getBody == None
  {
    request.body, request.getBody := NoBody, None;
  }
}
