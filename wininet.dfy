/** The response handle and its byte iterator, as objects updated in place.

    `Response` stands for the platform's request handle; the only thing the
    model keeps of it is the sequence of outcomes its read call will still
    report.  `Bytes` is the iterator: a fixed buffer updated in place, a read
    cursor and the count of valid bytes.  Each method is proved against the
    value-level step of module ByteReader. */
module WinInet {
  import opened ByteReader

  class Response {
    /** The outcomes the platform's read call will report, in order. */
    var pending: seq<Chunk>

    constructor (body: seq<Chunk>)
      ensures pending == body
    {
      pending := body;
    }

    /** The platform's read call on this handle: writes the delivered bytes
        to the front of `buffer`, leaves the rest of it untouched, and reports
        success and the count delivered. */
    method ReadFile(buffer: array<u8>) returns (ok: bool, readSize: u32)
      requires buffer.Length == BUFFER_SIZE as int
      modifies this, buffer
      ensures var (read, rest) := Pull(old(pending));
              && ok == read.ok
              && readSize as int == |read.bytes|
              && buffer[..] == read.bytes + old(buffer[..])[|read.bytes|..]
              && pending == rest
    {
      var (read, rest) := Pull(pending);
      forall i | 0 <= i < |read.bytes| {
        buffer[i] := read.bytes[i];
      }
      assert buffer[..] == read.bytes + old(buffer[..])[|read.bytes|..];
      ok, readSize := read.ok, |read.bytes| as u32;
      pending := rest;
    }

    /** `Response::as_bytes`: a new iterator over this response's body. */
    method AsBytes() returns (b: Bytes)
      ensures fresh(b) && fresh(b.data) && b.Valid()
      ensures b.handle == this && b.State() == NewCursor
    {
      b := new Bytes(this);
    }
  }

  class Bytes {
    const handle: Response
    const data: array<u8>
    var index: u32
    var size: u32

    ghost predicate Valid()
      reads this
    {
      data.Length == BUFFER_SIZE as int && size <= BUFFER_SIZE
    }

    /** The reader's fields as a value of module ByteReader. */
    ghost function State(): Cursor
      reads this, data
    {
      Cursor(data[..], index as nat, size as nat)
    }

    /** `Bytes::new`: a zeroed buffer and a cursor that has consumed nothing,
        so the first call of `Next` reads. */
    constructor (handle: Response)
      ensures fresh(data) && Valid()
      ensures this.handle == handle && State() == NewCursor
    {
      this.handle := handle;
      data := new u8[BUFFER_SIZE](_ => 0);
      index, size := 0, 0;
    }

    /** The iterator's `next`: reads a new chunk into the buffer when the
        cursor has reached `size`, then answers the byte under the cursor, or
        the end of the body when this call's read succeeded with no bytes, and
        advances the cursor. */
    method Next() returns (item: Option<u8>)
      requires Valid()
      modifies this, data, handle
      ensures Valid()
      ensures var s := ByteReader.Next(old(State()), old(handle.pending));
              && item == s.item
              && State() == s.cursor
              && handle.pending == s.pending
    {
      var result := false;
      var readSize: u32 := 0;
      if index >= size {
        result, readSize := handle.ReadFile(data);
        size := readSize;
        index := 0;
      }
      if result && readSize == 0 {
        item := None;
      } else {
        item := Some(data[index]);
      }
      index := index + 1;
    }
  }

  /** Draining a new iterator to the end, as `collect` does: when the
      response delivers its body in successful non-empty reads, the bytes
      collected are exactly the body. */
  method Collect(b: Bytes) returns (body: seq<u8>)
    requires b.Valid() && b.State() == NewCursor
    requires AllDeliver(b.handle.pending)
    modifies b, b.data, b.handle
    ensures body == Body(old(b.handle.pending))
  {
    ghost var whole := Body(b.handle.pending);
    NewReaderDrainsBody(b.handle.pending);
    assert Items(whole) + [None] == Upcoming(whole, 0);
    body := [];
    while true
      invariant b.Valid()
      invariant |body| <= |whole| && body == whole[..|body|]
      invariant Run(b.State(), b.handle.pending, |whole| - |body| + 1).items == Upcoming(whole, |body|)
      decreases |whole| - |body|
    {
      DrainStep(b.State(), b.handle.pending, whole, |body|);
      var item := b.Next();
      if item.None? {
        break;
      }
      body := body + [item.value];
    }
  }
}
