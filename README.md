# thin-http: the byte reader and the wide-string adapter

This project models the two parts of `thin-http` that hold logic of their own and proves properties about them. The rest of the crate is a thin wrapper over the Windows WinINet library.

- **The response body iterator** (`Bytes` and its `Iterator::next`). It owns a fixed 1000-byte buffer (`data`), a read cursor (`index`) and a count of valid bytes (`size`). When the cursor reaches `size`, `next` refills the buffer with one `InternetReadFile` call and restarts the cursor. A read that succeeds with zero bytes ends the body. Otherwise `next` answers the byte under the cursor. Every call advances the cursor.
- **The wide-string adapter** (`WideString::from`). It turns a `&str` into the zero-terminated UTF-16 buffer the platform API takes.

## Files

- `byte_reader.dfy`, module `ByteReader`: the reader as values. `Cursor` holds the three fields and `Next` is one call of `next`. `Run` is `n` calls in a row. The lemmas state what a drain yields, what happens at and after the end of the body, and what a failed read does.
- `wininet.dfy`, module `WinInet`: the same reader as objects updated in place. `Bytes` is a class over an `array<u8>` with `u32` fields. `Bytes.Next` follows the statements of the source one for one and is proved equal to `ByteReader.Next`. `Response` stands for the request handle. `Collect` drains an iterator the way the crate's test does.
- `wide_string.dfy`, module `WideString`: `From` and what the terminator guarantees.

How the platform is modelled:

- `InternetReadFile` is an abstract source of read outcomes, `Response.pending`. A refill consumes one outcome `ReadOutcome(ok, bytes)` with `|bytes| <= 1000`. The outcome's bytes are written to the front of the buffer, its length becomes `size`, and the rest of the buffer keeps its old bytes.
- The source sets `size` from the reported count whatever the call's result was, and the model does the same. The model allows a failed read to deliver bytes; `FailedReadYieldsStaleByte` covers the case where it delivers none.
- Once the listed outcomes are used up, the platform keeps reporting success with zero bytes, which is end of body.
- `OsStr::encode_wide` is the parameter `encode` of `WideString.From`.

Behaviour kept as the code has it:

- A failed read does not end the iteration. The cursor restarts and `data[0]` is answered as a byte; `FailedReadYieldsStaleByte` states this. A caller cannot tell a failed read from a data byte; the model keeps this behaviour.
- `WideString::from` appends one zero unit after the encoding. When the text contains U+0000 the result holds a zero unit before the terminator; `PlatformReadsEncoding` states what the terminator guarantees.

## Model

| member | source | states |
|---|---|---|
| `ByteReader.Next` | src/lib.rs:168-190 | A call reads only when `index >= size`; otherwise `data`, `size` and the pending reads are unchanged and the answer is `data[index]`. A refill consumes exactly one read: it sets `size` to the count delivered (at most 1000), puts the delivered bytes at the front of the buffer and leaves the bytes after them unchanged. Every call advances the cursor by one from 0 (after a refill) or from `index`, and the cursor never passes 1000, so the buffer access is in bounds. The call answers the end of the body exactly when it refilled and the read succeeded with zero bytes; otherwise it answers the byte the cursor stood on. |
| `ByteReader.Run` | src/lib.rs:166-191 | `n` consecutive calls answer exactly `n` items and leave a well-formed reader. |
| `ByteReader.DrainYieldsBody` | src/lib.rs:168-190 | Suppose the rest of the body arrives as successful non-empty reads of at most 1000 bytes, followed by a successful empty read. Then the next `|body| + 1` calls answer the still-buffered bytes and every delivered byte in order, then the end of the body. |
| `ByteReader.NewReaderDrainsBody` | src/lib.rs:155-191 | Draining a new reader answers the whole body, concatenated from its reads, and then the end. |
| `ByteReader.DrainFullBuffers` | src/lib.rs:146-190 | A body made of full 1000-byte reads has exactly `1000 * reads` bytes. Draining yields exactly those bytes, then the end, with no extra byte. |
| `ByteReader.EndOfStreamPersists` | src/lib.rs:171-184 | After the end, with `index >= size`, every later call reads again. The next `n` calls all answer the end as long as each of the first `n` reads reports success with zero bytes (or the listed reads run out); what comes after those reads does not matter. |
| `ByteReader.EndLeavesRefillPending` | src/lib.rs:179-188 | A call that answers the end leaves `index = 1` and `size = 0`, so the next call reads again. |
| `ByteReader.FailedReadYieldsStaleByte` | src/lib.rs:171-187 | A failed read that delivers nothing does not end the body. The cursor restarts, the stale `data[0]` is answered as a byte, and the next call reads again. |
| `ByteReader.NewReaderReadsFirst` | src/lib.rs:155-182 | A new reader starts with `index = 0` and `size = 0`, so its first call consumes a read. |
| `ByteReader.BufferDelivers` | src/lib.rs:183-188 | While bytes remain buffered, a call answers the first of them, consumes no read and leaves the others buffered. |
| `ByteReader.RefillDelivers` | src/lib.rs:171-188 | When the buffer is consumed and the next read delivers bytes, the call answers the first byte, keeps the rest of that read buffered and consumes exactly that read, whether the read reported success or failure and whatever the later reads are. |
| `WinInet.Bytes.constructor` | src/lib.rs:156-163 | `Bytes::new` makes a fresh zeroed 1000-byte buffer with `index = 0` and `size = 0`. |
| `WinInet.Bytes.Next` | src/lib.rs:168-190 | The in-place `next` keeps `size <= 1000` and answers what `ByteReader.Next` answers. It leaves the buffer, cursor and count, and the handle's pending reads, as `ByteReader.Next` says. The `u32` cursor increment never overflows. |
| `WinInet.Response.ReadFile` | src/lib.rs:172-181 | One read call consumes one pending outcome. It reports that outcome's success and byte count, writes its bytes to the front of the buffer and leaves the rest unchanged. |
| `WinInet.Response.AsBytes` | src/lib.rs:194-196 | `as_bytes` returns a new iterator over this response in the initial reader state. |
| `WinInet.Collect` | src/lib.rs:225 | Collecting a new iterator whose response delivers its body in successful non-empty reads gives exactly the concatenated body. |
| `WideString.From` | src/lib.rs:13-22 | The result is the encoding of the text followed by one zero code unit: its last unit is 0, its length is the encoding's length plus one, and its other units are the encoding. |
| `WideString.PlatformReadsEncoding` | src/lib.rs:15-19 | A reader that stops at the first zero unit never reads past the encoding. It reads exactly the whole encoding if and only if the encoding contains no zero unit. |

## Left out

- `Internet::open` and `Internet::get` (src/lib.rs:94-143): they pass winapi flag constants to foreign calls and map a null handle to `None`. No logic of the crate is left once those calls are abstract.
- `Response::status` (src/lib.rs:198-212): it returns what `HttpQueryInfoW` writes, or 0 when it writes nothing. The value comes entirely from the platform.
- The `Drop` impls of `Internet` and `Response` (src/lib.rs:46-52, 86-92): RAII calls of `InternetCloseHandle`. Dafny has no destructors, and "close once" is guaranteed by Rust's ownership rules, not by any logic here.
- The `OpenType` and `InternetFlag` enums and their `DWORD` conversions (src/lib.rs:54-82): tables of winapi constants whose values are not in the crate.
- `InternetOpenW`, `InternetOpenUrlW`, `HttpQueryInfoW` and `InternetCloseHandle`: foreign WinINet calls. `InternetReadFile` is kept only as the abstract source of read outcomes `Response.pending`.
- `OsStr::encode_wide`: the standard library's UTF-16 encoder. It is the parameter `encode` of `WideString.From`, so nothing is claimed about the encoding itself.
- `Deref for WideString` (src/lib.rs:24-30): it exposes the `units` field.
- The lifetime `'a` that ties a `Bytes` to its `Response`: Dafny has no borrow checking. `Bytes.handle` is a plain reference.
- `Bytes.Next` also modifies its `Response`: the consumed read leaves `pending` shorter. In Rust the `Response` is borrowed immutably and the read position is state inside the platform handle.
- The network part of the test `it_works` (src/lib.rs:220-226): `Collect` models only its draining of the body.
- Concurrency and blocking: every call is synchronous, and the model has no notion of time.
