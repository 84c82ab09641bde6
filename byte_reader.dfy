/** The buffered byte reader behind `Response::as_bytes`, stated on values.

    The state of a reader is its 1000-byte buffer, its read cursor and the
    number of valid bytes in the buffer.  The platform's read call is an
    abstract source of read outcomes: each refill consumes one outcome.
    `Next` is one call of the iterator's `next`, `Run` is `n` calls in a row;
    the lemmas below state what draining the reader yields. */
module ByteReader {

  newtype u8 = x: int | 0 <= x < 0x100

  /** The platform's `DWORD`. */
  newtype u32 = x: int | 0 <= x < 0x1_0000_0000

  /** Size of the reader's buffer and the most one read call is asked for. */
  const BUFFER_SIZE: u32 := 1000

  datatype Option<T> = None | Some(value: T)

  /** What one call of the platform's read function reports: whether it
      succeeded, and the bytes it wrote to the front of the buffer (their
      count is the number of bytes it reports as read). */
  datatype ReadOutcome = ReadOutcome(ok: bool, bytes: seq<u8>)

  /** The read call is never asked for more than `BUFFER_SIZE` bytes. */
  type Chunk = r: ReadOutcome | |r.bytes| <= BUFFER_SIZE as int
    witness ReadOutcome(true, [])

  /** A successful read that delivers nothing: the platform's end of body. */
  const EndOfStream: Chunk := ReadOutcome(true, [])

  /** One read call against the pending outcomes of a response.  Once the
      scripted outcomes are used up the platform keeps reporting end of body. */
  function Pull(pending: seq<Chunk>): (r: (Chunk, seq<Chunk>))
  {
    if pending == [] then (EndOfStream, []) else (pending[0], pending[1..])
  }

  /** The fields `data`, `index` and `size` of a reader. */
  datatype Cursor = Cursor(data: seq<u8>, index: nat, size: nat)
  {
    /** The buffer has its fixed size and never holds more valid bytes. */
    predicate Valid()
    {
      |data| == BUFFER_SIZE as int && size <= BUFFER_SIZE as int
    }
  }

  /** The state `Bytes::new` creates: a zeroed buffer, nothing consumed, nothing valid. */
  const NewCursor: Cursor := Cursor(seq(BUFFER_SIZE as int, _ => 0), 0, 0)

  /** A call of `next` wants a new chunk exactly when the cursor has reached `size`. */
  predicate NeedsRefill(c: Cursor)
  {
    c.index >= c.size
  }

  datatype StepResult = StepResult(item: Option<u8>, cursor: Cursor, pending: seq<Chunk>)

  /** One call of `next`: refill when the buffer is consumed, then answer the
      byte under the cursor (or the end of the body) and advance the cursor. */
  function Next(c: Cursor, pending: seq<Chunk>): (r: StepResult)
    requires c.Valid()
    ensures r.cursor.Valid()
    // Without a refill nothing is read and only the cursor moves.
    ensures !NeedsRefill(c) ==>
      && r.pending == pending
      && r.cursor.data == c.data && r.cursor.size == c.size
      && r.item == Some(c.data[c.index])
    // A refill consumes exactly one read, restarts the cursor and records the
    // count delivered; the bytes past that count are left as they were.
    ensures NeedsRefill(c) ==>
      var (read, rest) := Pull(pending);
      && r.pending == rest
      && r.cursor.size == |read.bytes|
      && (forall i :: 0 <= i < |read.bytes| ==> r.cursor.data[i] == read.bytes[i])
      && (forall i :: |read.bytes| <= i < |c.data| ==> r.cursor.data[i] == c.data[i])
    // Every call advances the cursor by one, the call that ends the body included,
    // and the cursor never passes the end of the buffer.
    ensures r.cursor.index == (if NeedsRefill(c) then 0 else c.index) + 1
    ensures r.cursor.index <= BUFFER_SIZE as int
    // The body ends exactly when this call refilled and the read succeeded with no bytes.
    ensures r.item.None? <==> NeedsRefill(c) && Pull(pending).0.ok && Pull(pending).0.bytes == []
    // Otherwise the answer is the byte the cursor stood on.
    ensures r.item.Some? ==> r.item.value == r.cursor.data[r.cursor.index - 1]
  {
    if NeedsRefill(c) then
      var (read, rest) := Pull(pending);
      var data := read.bytes + c.data[|read.bytes|..];
      var item := if read.ok && |read.bytes| == 0 then None else Some(data[0]);
      StepResult(item, Cursor(data, 1, |read.bytes|), rest)
    else
      StepResult(Some(c.data[c.index]), Cursor(c.data, c.index + 1, c.size), pending)
  }

  datatype RunResult = RunResult(items: seq<Option<u8>>, cursor: Cursor, pending: seq<Chunk>)

  /** `n` calls of `next` in a row, with everything they answered. */
  function Run(c: Cursor, pending: seq<Chunk>, n: nat): (r: RunResult)
    requires c.Valid()
    ensures |r.items| == n
    ensures r.cursor.Valid()
    decreases n
  {
    if n == 0 then RunResult([], c, pending)
    else
      var s := Next(c, pending);
      var rest := Run(s.cursor, s.pending, n - 1);
      RunResult([s.item] + rest.items, rest.cursor, rest.pending)
  }

  /** Each byte of `body`, answered as an item. */
  function Items(body: seq<u8>): (r: seq<Option<u8>>)
    ensures |r| == |body|
  {
    if body == [] then [] else [Some(body[0])] + Items(body[1..])
  }

  /** Answering the first byte of a body leaves the answers for the rest. */
  lemma ItemsCons(x: u8, rest: seq<u8>)
    ensures Items([x] + rest) + [None] == [Some(x)] + (Items(rest) + [None])
  {
    assert ([x] + rest)[1..] == rest;
  }

  /** The bytes of a sequence of reads, in order. */
  function Body(chunks: seq<Chunk>): seq<u8>
  {
    if chunks == [] then [] else chunks[0].bytes + Body(chunks[1..])
  }

  /** Reads that each succeed and deliver at least one byte. */
  predicate AllDeliver(chunks: seq<Chunk>)
  {
    forall i :: 0 <= i < |chunks| ==> chunks[i].ok && chunks[i].bytes != []
  }

  /** What is still to come once `j` bytes of `body` have been answered. */
  function Upcoming(body: seq<u8>, j: nat): (r: seq<Option<u8>>)
    requires j <= |body|
    ensures |r| == |body| - j + 1
    ensures r[0] == if j < |body| then Some(body[j]) else None
  {
    Items(body[j..]) + [None]
  }

  /** Answering one more byte leaves the rest of what is to come. */
  lemma UpcomingTail(body: seq<u8>, j: nat)
    requires j < |body|
    ensures Upcoming(body, j)[1..] == Upcoming(body, j + 1)
  {
    assert body[j..][1..] == body[j + 1..];
  }

  /** One more call while draining: if the calls still to come answer
      `Upcoming(body, j)`, the next call answers its first item and the calls
      after it answer the rest. */
  lemma DrainStep(c: Cursor, pending: seq<Chunk>, body: seq<u8>, j: nat)
    requires c.Valid() && j <= |body|
    requires Run(c, pending, |body| - j + 1).items == Upcoming(body, j)
    ensures Next(c, pending).item == if j < |body| then Some(body[j]) else None
    ensures j < |body| ==>
      Run(Next(c, pending).cursor, Next(c, pending).pending, |body| - j).items == Upcoming(body, j + 1)
  {
    if j < |body| {
      UpcomingTail(body, j);
    }
  }

  /** The bytes of the buffer the cursor has not answered yet. */
  function Buffered(c: Cursor): (b: seq<u8>)
    requires c.Valid()
    ensures |b| == if c.index < c.size then c.size - c.index else 0
  {
    if c.index < c.size then c.data[c.index..c.size] else []
  }

  /** A call that answers the first byte of `body`, followed by calls that
      answer the rest of it and then the end, answers `body` and then the end. */
  lemma DrainCons(c: Cursor, pending: seq<Chunk>, body: seq<u8>)
    requires c.Valid() && body != []
    requires Next(c, pending).item == Some(body[0])
    requires Run(Next(c, pending).cursor, Next(c, pending).pending, |body|).items == Items(body[1..]) + [None]
    ensures Run(c, pending, |body| + 1).items == Items(body) + [None]
  {
    var s := Next(c, pending);
    assert Run(c, pending, |body| + 1).items == [Some(body[0])] + Run(s.cursor, s.pending, |body|).items;
    ItemsCons(body[0], body[1..]);
    assert [body[0]] + body[1..] == body;
  }

  /** Draining the reader: when the response delivers the rest of its body as
      successful reads of at most `BUFFER_SIZE` bytes each, followed by a
      successful empty read, the following calls of `next` answer the bytes
      still buffered, then every byte of those reads in order, then the end
      of the body.  This holds for any chunk lengths, so a body that fills
      its last buffer exactly ends without an extra byte. */
  lemma {:induction false} DrainYieldsBody(c: Cursor, chunks: seq<Chunk>, after: seq<Chunk>)
    requires c.Valid()
    requires AllDeliver(chunks)
    ensures var body := Buffered(c) + Body(chunks);
            Run(c, chunks + [EndOfStream] + after, |body| + 1).items == Items(body) + [None]
    decreases |Buffered(c)| + |Body(chunks)|, 1
  {
    if !NeedsRefill(c) {
      DrainFromBuffer(c, chunks, after);
    } else if chunks == [] {
      DrainAtEnd(c, after);
      assert chunks + [EndOfStream] + after == [EndOfStream] + after;
      assert Buffered(c) + Body(chunks) == [];
    } else {
      DrainByRefill(c, chunks, after);
    }
  }

  /** Bytes remain in the buffer: the byte under the cursor comes first. */
  lemma {:induction false} DrainFromBuffer(c: Cursor, chunks: seq<Chunk>, after: seq<Chunk>)
    requires c.Valid() && !NeedsRefill(c)
    requires AllDeliver(chunks)
    ensures var body := Buffered(c) + Body(chunks);
            Run(c, chunks + [EndOfStream] + after, |body| + 1).items == Items(body) + [None]
    decreases |Buffered(c)| + |Body(chunks)|, 0
  {
    var pending := chunks + [EndOfStream] + after;
    var body := Buffered(c) + Body(chunks);
    BufferDelivers(c, pending, Body(chunks));
    var s := Next(c, pending);
    DrainYieldsBody(s.cursor, chunks, after);
    DrainCons(c, pending, body);
  }

  /** With bytes buffered, a call answers the first of them, reads nothing
      and leaves the others buffered. */
  lemma BufferDelivers(c: Cursor, pending: seq<Chunk>, more: seq<u8>)
    requires c.Valid() && !NeedsRefill(c)
    ensures var body := Buffered(c) + more;
            var s := Next(c, pending);
            && body != []
            && s.item == Some(body[0])
            && s.pending == pending
            && body[1..] == Buffered(s.cursor) + more
  {
    assert Buffered(c) == [c.data[c.index]] + Buffered(Next(c, pending).cursor);
  }

  /** The buffer is consumed and the next read is the empty one: the body ends. */
  lemma DrainAtEnd(c: Cursor, after: seq<Chunk>)
    requires c.Valid() && NeedsRefill(c)
    ensures Buffered(c) == []
    ensures Run(c, [EndOfStream] + after, 1).items == [None]
  {
    var pending := [EndOfStream] + after;
    assert Pull(pending) == (EndOfStream, after);
    assert Run(c, pending, 1).items == [Next(c, pending).item];
  }

  /** The buffer is consumed and the next read delivers a chunk: its first
      byte comes now and the rest of it is buffered. */
  lemma {:induction false} DrainByRefill(c: Cursor, chunks: seq<Chunk>, after: seq<Chunk>)
    requires c.Valid() && NeedsRefill(c)
    requires AllDeliver(chunks) && chunks != []
    ensures var body := Buffered(c) + Body(chunks);
            Run(c, chunks + [EndOfStream] + after, |body| + 1).items == Items(body) + [None]
    decreases |Buffered(c)| + |Body(chunks)|, 0
  {
    var pending := chunks + [EndOfStream] + after;
    var body := Buffered(c) + Body(chunks);
    RefillStep(c, chunks, after);
    var s := Next(c, pending);
    DrainYieldsBody(s.cursor, chunks[1..], after);
    DrainCons(c, pending, body);
  }

  /** A refill from a read that delivers bytes answers the first of them,
      keeps the others buffered and consumes exactly that read, whatever the
      read reported as its result and whatever the reads after it report. */
  lemma RefillDelivers(c: Cursor, pending: seq<Chunk>)
    requires c.Valid() && NeedsRefill(c)
    requires pending != [] && pending[0].bytes != []
    ensures var s := Next(c, pending);
            && s.item == Some(pending[0].bytes[0])
            && s.pending == pending[1..]
            && Buffered(s.cursor) == pending[0].bytes[1..]
  {
  }

  /** `RefillDelivers` in the shape of a drain: the first of the delivering
      reads is consumed and its bytes lead what remains of the body. */
  lemma RefillStep(c: Cursor, chunks: seq<Chunk>, after: seq<Chunk>)
    requires c.Valid() && NeedsRefill(c)
    requires AllDeliver(chunks) && chunks != []
    ensures var body := Buffered(c) + Body(chunks);
            var s := Next(c, chunks + [EndOfStream] + after);
            && body != []
            && s.item == Some(body[0])
            && s.pending == chunks[1..] + [EndOfStream] + after
            && body[1..] == Buffered(s.cursor) + Body(chunks[1..])
  {
    var chunk, later := chunks[0], chunks[1..] + [EndOfStream] + after;
    assert chunks + [EndOfStream] + after == [chunk] + later;
    RefillDelivers(c, [chunk] + later);
    assert ([chunk] + later)[1..] == later;
    assert Buffered(c) == [];
    assert Body(chunks) == chunk.bytes + Body(chunks[1..]);
  }

  /** A new reader has nothing buffered, so draining it answers the whole
      body followed by the end of the body; the trailing empty read may be
      left implicit. */
  lemma NewReaderDrainsBody(chunks: seq<Chunk>)
    requires AllDeliver(chunks)
    ensures Run(NewCursor, chunks, |Body(chunks)| + 1).items == Items(Body(chunks)) + [None]
  {
    DrainYieldsBody(NewCursor, chunks, []);
    assert Buffered(NewCursor) + Body(chunks) == Body(chunks);
    assert chunks + [EndOfStream] + [] == chunks + [EndOfStream];
    RunAfterSourceEnds(NewCursor, chunks, |Body(chunks)| + 1);
  }

  /** Once the scripted outcomes are used up the platform reports end of body,
      so an explicit trailing `EndOfStream` changes nothing. */
  lemma {:induction false} RunAfterSourceEnds(c: Cursor, chunks: seq<Chunk>, n: nat)
    requires c.Valid()
    ensures Run(c, chunks + [EndOfStream], n).items == Run(c, chunks, n).items
    decreases n
  {
    if n > 0 {
      var s1 := Next(c, chunks + [EndOfStream]);
      var s2 := Next(c, chunks);
      NextBeforeSourceEnds(c, chunks);
      if s1.pending == s2.pending {
        assert s1 == s2;
      } else {
        RunAfterSourceEnds(s2.cursor, s2.pending, n - 1);
      }
      assert Run(c, chunks + [EndOfStream], n).items == [s1.item] + Run(s1.cursor, s1.pending, n - 1).items;
      assert Run(c, chunks, n).items == [s2.item] + Run(s2.cursor, s2.pending, n - 1).items;
    }
  }

  /** One call against outcomes with an explicit trailing end of body answers
      the same and leaves the same reader; at most the trailing outcome is
      still pending. */
  lemma NextBeforeSourceEnds(c: Cursor, chunks: seq<Chunk>)
    requires c.Valid()
    ensures var s1, s2 := Next(c, chunks + [EndOfStream]), Next(c, chunks);
            && s1.item == s2.item && s1.cursor == s2.cursor
            && (s1.pending == s2.pending || s1.pending == s2.pending + [EndOfStream])
  {
    if chunks != [] {
      assert Pull(chunks + [EndOfStream]).0 == Pull(chunks).0;
      assert (chunks + [EndOfStream])[1..] == chunks[1..] + [EndOfStream];
    }
  }

  /** Sizes that are a multiple of the buffer: chunks of exactly
      `BUFFER_SIZE` bytes give a body of exactly that many bytes per chunk,
      and draining answers exactly those bytes and then the end of the body. */
  lemma {:induction false} DrainFullBuffers(chunks: seq<Chunk>)
    requires forall i :: 0 <= i < |chunks| ==> chunks[i].ok && |chunks[i].bytes| == BUFFER_SIZE as int
    ensures |Body(chunks)| == |chunks| * BUFFER_SIZE as int
    ensures Run(NewCursor, chunks, |chunks| * BUFFER_SIZE as int + 1).items == Items(Body(chunks)) + [None]
    decreases |chunks|
  {
    if chunks != [] {
      DrainFullBuffers(chunks[1..]);
      assert |Body(chunks)| == BUFFER_SIZE as int + |Body(chunks[1..])|;
    }
    NewReaderDrainsBody(chunks);
  }

  /** Once the body has ended the reader stays ended: the cursor sits past an
      empty buffer, so each later call reads again, and while the platform
      keeps reporting success with no bytes every call answers the end. */
  lemma {:induction false} EndOfStreamPersists(c: Cursor, pending: seq<Chunk>, n: nat)
    requires c.Valid() && NeedsRefill(c)
    requires forall i :: 0 <= i < n && i < |pending| ==> pending[i] == EndOfStream
    ensures Run(c, pending, n).items == seq(n, _ => None)
    decreases n
  {
    if n > 0 {
      var s := Next(c, pending);
      assert s.item == None && NeedsRefill(s.cursor);
      EndOfStreamPersists(s.cursor, s.pending, n - 1);
      var ends: seq<Option<u8>> := seq(n, _ => None);
      assert ends == [None] + seq(n - 1, _ => None);
    }
  }

  /** After a call that answered the end of the body, the next call reads again. */
  lemma EndLeavesRefillPending(c: Cursor, pending: seq<Chunk>)
    requires c.Valid()
    requires Next(c, pending).item.None?
    ensures Next(c, pending).cursor.index == 1 && Next(c, pending).cursor.size == 0
    ensures NeedsRefill(Next(c, pending).cursor)
  {
  }

  /** A failed read does not end the body: the cursor restarts, and the byte
      answered is the first byte of the buffer, which is a stale byte of an
      earlier chunk when the failed read delivered nothing; the call after it
      reads again. */
  lemma FailedReadYieldsStaleByte(c: Cursor, pending: seq<Chunk>)
    requires c.Valid() && NeedsRefill(c)
    requires pending != [] && !pending[0].ok && pending[0].bytes == []
    ensures Next(c, pending).item == Some(c.data[0])
    ensures Next(c, pending).cursor == Cursor(c.data, 1, 0)
    ensures NeedsRefill(Next(c, pending).cursor)
  {
  }

  /** A new reader has consumed nothing, so its first call always reads. */
  lemma NewReaderReadsFirst(pending: seq<Chunk>)
    ensures NewCursor.Valid() && NeedsRefill(NewCursor)
    ensures Next(NewCursor, pending).pending == Pull(pending).1
  {
  }
}
