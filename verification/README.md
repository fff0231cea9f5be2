# file_hash — a verified model of `simple_hash`

`simple_hash` (file_hash.c) computes an additive checksum of a file. It opens
the file, reads it into a 1024-byte `char` buffer as many times as `read`
returns more than 0, and adds every byte it gets into a `uint32_t`
accumulator. The accumulator wraps modulo 2^32. If the open fails, it
returns 0.

The model is one Dafny module, `FileHash` (file_hash.dfy):

- **The file.** `FileModel(openSucceeded, chunks, ending)` stands for the
  operating system. `openSucceeded` says whether `open` gave a descriptor.
  `chunks` lists what the successive `read` calls deliver. The type
  `Chunk` holds 1 to 1024 bytes, which is what a positive `read` return can
  be. `ending` says how the stream ends: a return of 0 (`Eof`) or a
  negative return (`ReadError`).
- **`char` signedness.** `buf` is a plain `char` array. So `hash += buf[i]`
  adds the `char` value converted to `uint32_t`. Every member whose value
  depends on how a byte is converted takes a `Signedness` parameter. With `SignedChar` (x86, for example) a byte
  b ≥ 128 adds 2^32 − 256 + b, which acts as b − 256. With `UnsignedChar`
  it adds b. The two agree exactly on bytes below 128.
- **The code.** `SimpleHash` is an imperative method with the source's two
  loops. The outer `while` calls `ReadChunk` (the model of `read`), which
  copies the next chunk into the front of a 1024-element array and returns
  its length, or 0, or −1. The inner `for` adds `buf[0..n)` one byte at a
  time with `WrappingAdd`.
- **The specification.** `HashOf` is 0 when the open fails. Otherwise it is
  `Sum(content) mod 2^32`, where `Sum` is the unbounded sum of the byte
  contributions and the content is the concatenation of the chunks
  (`Flatten`). `SimpleHash` is proved to return `HashOf`. The lemmas then
  show what `HashOf` means.

Two behaviours of the code are easy to misread, and the model follows the
code in both:

- One might expect a read error to be reported and the partial sum thrown
  away. The code leaves the loop on any return ≤ 0 and returns the sum so
  far. The model returns the partial sum (`ReadErrorKeepsPartialSum`).
- One might expect each byte's unsigned value to be added. The code adds a
  `char`, which is signed on common platforms. The model covers both cases
  and does not assume unsigned bytes.

## Model

| member | source | states |
|---|---|---|
| FileHash.SimpleHash | file_hash.c:6-17 | The result equals the checksum `HashOf` for every file. A failed open gives 0. Otherwise every byte of every positive read is added, and only the first n bytes of the buffer after each read are added. The loop stops at the first read returning 0 or less: the ghost count `calls` of `read` calls is one per chunk plus the one final read, and 0 when the open fails. |
| FileHash.ReadChunk | file_hash.c:12 | A `read` into `buf` returns the next chunk's length and puts that chunk in `buf[0..n)`. It leaves the rest of `buf` as it was, so stale bytes stay there. After the last chunk it returns 0 at end of file or −1 on error. |
| FileHash.ReadReturn | file_hash.c:12 | A read returns a positive count exactly while chunks remain. The count never exceeds `sizeof(buf)` = 1024. After the last chunk it returns 0 exactly when the file ended normally. |
| FileHash.CharValue | file_hash.c:10 | The `char` holding a byte is the one value in the platform's `char` range that is congruent to the byte modulo 256. |
| FileHash.Contribution | file_hash.c:13 | `buf[i]` converted to `uint32_t` equals the byte exactly when `char` is unsigned or the byte is below 128. With signed `char`, a byte b ≥ 128 contributes 2^32 − 256 + b. |
| FileHash.WrappingAdd | file_hash.c:9-13 | `uint32_t` addition gives the true sum when it fits and the sum less 2^32 when it overflows. It never fails. |
| FileHash.Sum | file_hash.c:13 | The unbounded sum of byte contributions is never negative. |
| FileHash.Flatten | file_hash.c:12 | The content read has at least one byte per chunk, because no positive read delivers 0 bytes. |
| FileHash.Accumulate | file_hash.c:13 | Running `hash += buf[i]` over a stretch of bytes from `hash == h` wraps after every byte, yet gives the same value as adding without bound and wrapping once at the end: (h + Sum) mod 2^32. |
| FileHash.AccumulateConcat | file_hash.c:12-14 | Accumulating two stretches of bytes one after the other equals accumulating their concatenation. This is how the outer loop chains reads. |
| FileHash.FlattenSnoc | file_hash.c:12 | Each further read appends its chunk to the content read so far. |
| FileHash.AccumulateNextChunk | file_hash.c:12-14 | One round of the outer loop leaves the accumulator holding the accumulation of one more chunk of content. |
| FileHash.AccumulateAllChunks | file_hash.c:12-16 | After every chunk has been accumulated from 0, the accumulator holds `HashOf` of the file. |
| FileHash.SumConcat | file_hash.c:13 | The sum over a concatenation is the sum of the sums of its parts. |
| FileHash.ChunkSums | file_hash.c:12-14 | The sum of the per-read sums equals the sum of the whole content. |
| FileHash.HashOf | file_hash.c:6-17 | The checksum of a file that opened is the wrapping accumulation, from 0, of its whole content in read order. |
| FileHash.CharSum | file_hash.c:10-13 | The plain sum of the `char` values lies between 0 and 255 per byte with unsigned `char`, and between −128 and 127 per byte with signed `char`. |
| FileHash.NegativeChars | file_hash.c:10-13 | The number of negative `char` values is at most the number of bytes. It is 0 with unsigned `char`. With signed `char` it is 0 exactly when every byte is below 128. |
| FileHash.SumIsCharSumPlusWraps | file_hash.c:10-13 | Converting each `char` to `uint32_t` before adding adds exactly 2^32 for each negative `char`. |
| FileHash.SumMatchesCharSum | file_hash.c:10-13 | The checksum is the C sum of the `char` values taken modulo 2^32. |
| FileHash.UnsignedSumIsByteSum | file_hash.c:10-13 | With unsigned `char`, the checksum is the plain byte sum modulo 2^32. |
| FileHash.SignednessMatters | file_hash.c:10-13 | Signed and unsigned `char` give the same contribution if and only if the byte is below 128. |
| FileHash.OpenFailureLooksEmpty | file_hash.c:7-8 | A failed open gives 0, which is also what an empty file gives. The two results cannot be told apart. |
| FileHash.EmptyFileIsZero | file_hash.c:9-16 | If the first read returns 0, the result is 0. |
| FileHash.ReadErrorKeepsPartialSum | file_hash.c:12-16 | A read error (which ends the loop, by `SimpleHash`'s read count) leaves the result at the sum of the bytes read before it. It is neither discarded nor reported, and equals what a normal end of file would give. |
| FileHash.Split | file_hash.c:10-12 | Reading content with a buffer of any size from 1 to 1024 yields chunks no longer than that size whose concatenation is the content. |
| FileHash.ChunkingIrrelevant | file_hash.c:10-14 | Any two chunkings of the same content give the same result, whichever way each stream ends. |
| FileHash.BufferSizeIrrelevant | file_hash.c:10-14 | Buffers of 1, 7 or 1024 bytes (any two sizes from 1 to 1024) give the same result: the sum of the content modulo 2^32. |
| FileHash.FlattenOne | file_hash.c:12 | A file delivered in a single read holds exactly that chunk. |
| FileHash.HashOfAB | file_hash.c:13 | Content "AB" (65, 66) gives 131 with either signedness. |
| FileHash.HashOfHighBytes | file_hash.c:10-13 | With signed `char`, the single byte 0xFF gives 4294967295, and 0x01 followed by 0xFF wraps to 0. With unsigned `char`, 0x01 followed by 0xFF gives 256. |

## Left out

- `open`, `read` and `close` are not modelled as system calls. Opening is the
  `openSucceeded` flag, each read is the next entry of `chunks` (or the
  ending), and closing has no effect on the result. Descriptor lifetime and
  `close` are outside the model.
- `errno` and the kinds of open or read failure are left out. The code never
  looks at them.
- `read` returning fewer bytes than asked for is modelled through chunks of
  any length from 1 to 1024. Interrupted reads (`EINTR`) are just another
  negative return.
- `ReadChunk` models a read that leaves `buf` past n unchanged. POSIX makes
  no promise about those bytes. The result does not depend on them, because
  only `buf[0..n)` is read.
- A stream whose reads never return 0 or less is not modelled: `chunks` is a
  finite sequence. On such a stream `simple_hash` does not terminate.
- `main` (file_hash.c:19-27) is left out. It is command-line glue: the
  argument-count check, the usage message, printing the result and the exit
  codes.
