/** A model of `simple_hash` (file_hash.c): an additive checksum that opens a
    file, reads it into a 1024-byte buffer chunk by chunk, and adds every byte,
    as a C `char` converted to `uint32_t`, into a wrapping 32-bit accumulator.

    The operating system is abstracted away: a file is an "open succeeded"
    flag plus the sequence of results its `read` calls return. */
module FileHash {

  /** 2^32: `uint32_t` arithmetic is arithmetic modulo this number. */
  const Modulus: int := 0x1_0000_0000

  /** The size of `buf`, and so the most one `read` call can deliver. */
  const BufSize: int := 1024

  type Byte = b: int | 0 <= b < 256

  /** The values of C's `uint32_t`. */
  type Uint32 = x: int | 0 <= x < 0x1_0000_0000

  /** What one `read` call that returns n > 0 delivers: between 1 and 1024
      bytes (a return of 0 means end of file, so a chunk is never empty). */
  type Chunk = c: seq<Byte> | 1 <= |c| <= 1024 witness [0]

  /** Whether the platform's plain `char` is signed (x86, for example) or
      unsigned (ARM Linux, for example). */
  datatype Signedness = SignedChar | UnsignedChar

  /** How the stream of `read` calls ends once every chunk is delivered:
      a return of 0 (end of file) or a negative return (an I/O error). */
  datatype End = Eof | ReadError

  /** The file as `simple_hash` sees it. When `openSucceeded` is false,
      `open` returned a negative descriptor and nothing else matters. */
  datatype FileModel = FileModel(openSucceeded: bool, chunks: seq<Chunk>, ending: End)

  // ---------------------------------------------------------------------
  // Byte contributions and wrapping addition
  // ---------------------------------------------------------------------

  /** The value of the `char` holding byte `b`: the one value of the
      platform's `char` range with the same bit pattern (congruent mod 256). */
  function CharValue(sign: Signedness, b: Byte): (v: int)
    ensures v % 256 == b
    ensures sign == SignedChar ==> -128 <= v < 128
    ensures sign == UnsignedChar ==> 0 <= v < 256
  {
    if sign == SignedChar && b >= 128 then b - 256 else b
  }

  /** What `hash += buf[i]` adds for byte `b`: the `char` converted to
      `uint32_t`, which C defines as reduction modulo 2^32. */
  function Contribution(sign: Signedness, b: Byte): (r: Uint32)
    ensures r == b <==> (sign == UnsignedChar || b < 128)
    ensures sign == SignedChar && b >= 128 ==> r == Modulus - 256 + b
  {
    CharValue(sign, b) % Modulus
  }

  /** `uint32_t` addition: the true sum, less 2^32 when it overflows.
      Overflow never fails, it wraps. */
  function WrappingAdd(a: Uint32, c: Uint32): (r: Uint32)
    ensures a + c < Modulus ==> r == a + c
    ensures a + c >= Modulus ==> r == a + c - Modulus
  {
    (a + c) % Modulus
  }

  /** The accumulator after `hash += buf[i]` has run, from `hash == h`, over
      `bytes` in order: the inner loop's effect, one wrapping add per byte.
      Wrapping after every byte gives what wrapping the unbounded sum once
      at the end would. */
  function Accumulate(sign: Signedness, h: Uint32, bytes: seq<Byte>): (r: Uint32)
    ensures r == (h + Sum(sign, bytes)) % Modulus
  {
    if |bytes| == 0 then h
    else
      var init, last := bytes[..|bytes| - 1], bytes[|bytes| - 1];
      WrapLate(h + Sum(sign, init), Contribution(sign, last));
      WrappingAdd(Accumulate(sign, h, init), Contribution(sign, last))
  }

  // ---------------------------------------------------------------------
  // The specification: a modular sum of the content
  // ---------------------------------------------------------------------

  /** The unbounded sum of the contributions of `bytes`. */
  function Sum(sign: Signedness, bytes: seq<Byte>): (s: int)
    ensures 0 <= s
  {
    if |bytes| == 0 then 0
    else Sum(sign, bytes[..|bytes| - 1]) + Contribution(sign, bytes[|bytes| - 1])
  }

  /** The unbounded sum of the `char` values of `bytes` (signed or not). */
  function CharSum(sign: Signedness, bytes: seq<Byte>): (r: int)
    ensures sign == UnsignedChar ==> 0 <= r <= 255 * |bytes|
    ensures sign == SignedChar ==> -128 * |bytes| <= r <= 127 * |bytes|
  {
    if |bytes| == 0 then 0
    else CharSum(sign, bytes[..|bytes| - 1]) + CharValue(sign, bytes[|bytes| - 1])
  }

  /** The content of the file: its chunks in the order they are read. */
  function Flatten(chunks: seq<Chunk>): (content: seq<Byte>)
    ensures |content| >= |chunks|
  {
    if |chunks| == 0 then [] else chunks[0] + Flatten(chunks[1..])
  }

  /** The sum of the per-chunk sums, which is the sum of the whole content. */
  function ChunkSums(sign: Signedness, chunks: seq<Chunk>): (r: int)
    ensures r == Sum(sign, Flatten(chunks))
  {
    if |chunks| == 0 then 0
    else
      SumConcat(sign, chunks[0], Flatten(chunks[1..]));
      Sum(sign, chunks[0]) + ChunkSums(sign, chunks[1..])
  }

  /** The checksum `simple_hash` returns for `file`: 0 when the open fails,
      otherwise the sum modulo 2^32 of every byte delivered before the first
      read that returns 0 or less, whatever that read returned. */
  function HashOf(sign: Signedness, file: FileModel): (r: Uint32)
    ensures file.openSucceeded ==> r == Accumulate(sign, 0, Flatten(file.chunks))
  {
    if !file.openSucceeded then 0 else Sum(sign, Flatten(file.chunks)) % Modulus
  }

  /** The value the `k`-th call of `read` (from 0) returns: the length of
      the `k`-th chunk, then 0 at end of file or -1 on an error. */
  function ReadReturn(file: FileModel, k: nat): (n: int)
    ensures n > 0 <==> k < |file.chunks|
    ensures n <= BufSize
    ensures k >= |file.chunks| ==> (n == 0 <==> file.ending == Eof)
  {
    if k < |file.chunks| then |file.chunks[k]|
    else if file.ending == Eof then 0
    else -1
  }

  // ---------------------------------------------------------------------
  // Lemmas: the loop computes the specification
  // ---------------------------------------------------------------------

  /** Adding a contribution to a wrapped value and wrapping again is the
      same as wrapping the unbounded sum once at the end. */
  lemma WrapLate(x: int, c: int)
    ensures (x % Modulus + c) % Modulus == (x + c) % Modulus
  {
  }

  /** Accumulating a concatenation is accumulating the first part and then,
      from there, the second: how the outer loop chains its chunks. */
  lemma {:induction false} AccumulateConcat(sign: Signedness, h: Uint32, a: seq<Byte>, b: seq<Byte>)
    ensures Accumulate(sign, h, a + b) == Accumulate(sign, Accumulate(sign, h, a), b)
  {
    if |b| == 0 {
      assert a + b == a;
    } else {
      var b' := b[..|b| - 1];
      assert (a + b)[..|a + b| - 1] == a + b';
      AccumulateConcat(sign, h, a, b');
    }
  }

  /** Reading one more chunk appends it to the content read so far. */
  lemma {:induction false} FlattenSnoc(chunks: seq<Chunk>, k: nat)
    requires k < |chunks|
    ensures Flatten(chunks[..k + 1]) == Flatten(chunks[..k]) + chunks[k]
  {
    if k > 0 {
      assert chunks[..k + 1][1..] == chunks[1..][..k];
      assert chunks[..k][1..] == chunks[1..][..k - 1];
      FlattenSnoc(chunks[1..], k - 1);
    } else {
      assert chunks[..1] == [chunks[0]];
      assert chunks[..0] == [];
    }
  }

  /** Summing a concatenation is summing each part. */
  lemma {:induction false} SumConcat(sign: Signedness, a: seq<Byte>, b: seq<Byte>)
    ensures Sum(sign, a + b) == Sum(sign, a) + Sum(sign, b)
  {
    if |b| == 0 {
      assert a + b == a;
    } else {
      var b' := b[..|b| - 1];
      assert (a + b)[..|a + b| - 1] == a + b';
      SumConcat(sign, a, b');
    }
  }

  /** One round of the outer loop: accumulating chunk `k` after the first
      `k` chunks accumulates the first `k + 1`. */
  lemma AccumulateNextChunk(sign: Signedness, chunks: seq<Chunk>, k: nat)
    requires k < |chunks|
    ensures Accumulate(sign, Accumulate(sign, 0, Flatten(chunks[..k])), chunks[k])
         == Accumulate(sign, 0, Flatten(chunks[..k + 1]))
  {
    FlattenSnoc(chunks, k);
    AccumulateConcat(sign, 0, Flatten(chunks[..k]), chunks[k]);
  }

  /** Once every chunk is accumulated from 0, the accumulator holds the
      checksum of the file. */
  lemma AccumulateAllChunks(sign: Signedness, file: FileModel)
    requires file.openSucceeded
    ensures Accumulate(sign, 0, Flatten(file.chunks[..|file.chunks|])) == HashOf(sign, file)
  {
    assert file.chunks[..|file.chunks|] == file.chunks;
  }

  // ---------------------------------------------------------------------
  // Lemmas: what the checksum is, and what it does not depend on
  // ---------------------------------------------------------------------

  /** How many bytes of `bytes` hold a negative `char` (none when `char`
      is unsigned): each of them wraps once when converted to `uint32_t`. */
  function NegativeChars(sign: Signedness, bytes: seq<Byte>): (count: nat)
    ensures count <= |bytes|
    ensures sign == UnsignedChar ==> count == 0
    ensures sign == SignedChar ==>
              (count == 0 <==> forall i :: 0 <= i < |bytes| ==> bytes[i] < 128)
  {
    if |bytes| == 0 then 0
    else NegativeChars(sign, bytes[..|bytes| - 1])
         + (if CharValue(sign, bytes[|bytes| - 1]) < 0 then 1 else 0)
  }

  /** Converting each `char` to `uint32_t` before adding adds exactly 2^32
      for every negative `char`. */
  lemma {:induction false} SumIsCharSumPlusWraps(sign: Signedness, bytes: seq<Byte>)
    ensures Sum(sign, bytes) == CharSum(sign, bytes) + Modulus * NegativeChars(sign, bytes)
  {
    if |bytes| > 0 {
      SumIsCharSumPlusWraps(sign, bytes[..|bytes| - 1]);
    }
  }

  /** Adding a multiple of 2^32 does not change a value modulo 2^32. */
  lemma ModuloMultiple(a: int, q: nat)
    ensures (a + Modulus * q) % Modulus == a % Modulus
  {
  }

  /** The checksum is the C sum of the `char` values, wrapped modulo 2^32:
      converting each `char` first gives the same result as summing the
      `char` values and converting once. */
  lemma SumMatchesCharSum(sign: Signedness, bytes: seq<Byte>)
    ensures Sum(sign, bytes) % Modulus == CharSum(sign, bytes) % Modulus
  {
    SumIsCharSumPlusWraps(sign, bytes);
    ModuloMultiple(CharSum(sign, bytes), NegativeChars(sign, bytes));
  }

  /** With unsigned `char` the checksum is the plain byte sum modulo 2^32. */
  lemma UnsignedSumIsByteSum(bytes: seq<Byte>)
    ensures Sum(UnsignedChar, bytes) == CharSum(UnsignedChar, bytes)
  {
    SumIsCharSumPlusWraps(UnsignedChar, bytes);
  }

  /** Signed and unsigned `char` give the same contribution exactly for
      bytes below 128. */
  lemma SignednessMatters(b: Byte)
    ensures Contribution(SignedChar, b) == Contribution(UnsignedChar, b) <==> b < 128
  {
  }

  /** A failed open gives 0, which is also what an empty file gives:
      the two cannot be told apart from the result. */
  lemma OpenFailureLooksEmpty(sign: Signedness, file: FileModel)
    requires !file.openSucceeded
    ensures HashOf(sign, file) == 0
    ensures HashOf(sign, file) == HashOf(sign, FileModel(true, [], Eof))
  {
  }

  /** An empty file (the first read returns 0) gives 0. */
  lemma EmptyFileIsZero(sign: Signedness, file: FileModel)
    requires file.openSucceeded && ReadReturn(file, 0) == 0
    ensures HashOf(sign, file) == 0
  {
  }

  /** A read error does not discard the sum: the bytes delivered before the
      failing read are summed exactly as if the file had ended there. */
  lemma ReadErrorKeepsPartialSum(sign: Signedness, chunks: seq<Chunk>)
    ensures HashOf(sign, FileModel(true, chunks, ReadError))
         == HashOf(sign, FileModel(true, chunks, Eof))
    ensures HashOf(sign, FileModel(true, chunks, ReadError))
         == ChunkSums(sign, chunks) % Modulus
  {
  }

  /** Splits `content` into reads of `size` bytes, the last one shorter:
      what `read` delivers for a regular file with a buffer of `size`. */
  function Split(content: seq<Byte>, size: int): (chunks: seq<Chunk>)
    requires 1 <= size <= BufSize
    ensures Flatten(chunks) == content
    ensures forall i :: 0 <= i < |chunks| ==> |chunks[i]| <= size
    decreases |content|
  {
    if |content| == 0 then []
    else if |content| <= size then [content]
    else [content[..size]] + Split(content[size..], size)
  }

  /** The checksum does not depend on how the reads split the content:
      any two chunkings of the same bytes give the same result. */
  lemma ChunkingIrrelevant(sign: Signedness, c1: seq<Chunk>, c2: seq<Chunk>, e1: End, e2: End)
    requires Flatten(c1) == Flatten(c2)
    ensures HashOf(sign, FileModel(true, c1, e1)) == HashOf(sign, FileModel(true, c2, e2))
  {
  }

  /** In particular, reading with buffers of 1, 7 or 1024 bytes agrees. */
  lemma BufferSizeIrrelevant(sign: Signedness, content: seq<Byte>, size1: int, size2: int)
    requires 1 <= size1 <= BufSize && 1 <= size2 <= BufSize
    ensures HashOf(sign, FileModel(true, Split(content, size1), Eof))
         == HashOf(sign, FileModel(true, Split(content, size2), Eof))
    ensures HashOf(sign, FileModel(true, Split(content, size1), Eof))
         == Sum(sign, content) % Modulus
  {
  }

  /** A file read in one chunk holds exactly that chunk. */
  lemma FlattenOne(c: Chunk)
    ensures Flatten([c]) == c
  {
    assert [c][1..] == [];
  }

  /** "AB" (65, 66) gives 131 whatever the signedness of `char`. */
  lemma HashOfAB(sign: Signedness)
    ensures HashOf(sign, FileModel(true, [[65, 66]], Eof)) == 131
  {
    var ab: Chunk := [65, 66];
    FlattenOne(ab);
    assert ab[..1] == [65] && [65][..0] == [];
    assert Sum(sign, ab) == 131;
  }

  /** With signed `char`, 0xFF acts as -1: alone it gives 2^32 - 1 and after
      0x01 it wraps the sum to 0. With unsigned `char` it adds 255. */
  lemma HashOfHighBytes()
    ensures HashOf(SignedChar, FileModel(true, [[0xFF]], Eof)) == 4294967295
    ensures HashOf(SignedChar, FileModel(true, [[0x01, 0xFF]], Eof)) == 0
    ensures HashOf(UnsignedChar, FileModel(true, [[0x01, 0xFF]], Eof)) == 256
  {
    var ff: Chunk := [0xFF];
    var pair: Chunk := [0x01, 0xFF];
    FlattenOne(ff);
    FlattenOne(pair);
    assert ff[..0] == [] && pair[..1] == [0x01] && [0x01][..0] == [];
    assert Sum(SignedChar, ff) == Modulus - 1;
    assert Sum(SignedChar, pair) == Modulus;
    assert Sum(UnsignedChar, pair) == 256;
  }

  // ---------------------------------------------------------------------
  // The imperative model of simple_hash
  // ---------------------------------------------------------------------

  /** `read(fd, buf, sizeof(buf))` for the `k`-th call: copies the `k`-th
      chunk into the front of `buf`, leaves the rest of `buf` as it was, and
      returns its length; past the last chunk it returns 0 or -1. */
  method ReadChunk(file: FileModel, k: nat, buf: array<Byte>) returns (n: int)
    requires buf.Length == BufSize
    modifies buf
    ensures n == ReadReturn(file, k)
    ensures n > 0 ==> buf[..n] == file.chunks[k]
    ensures forall j :: 0 <= j < buf.Length && !(0 <= j < n) ==> buf[j] == old(buf[j])
  {
    n := ReadReturn(file, k);
    if n > 0 {
      var chunk := file.chunks[k];
      for j := 0 to n
        invariant buf[..j] == chunk[..j]
        invariant forall m :: j <= m < buf.Length ==> buf[m] == old(buf[m])
      {
        buf[j] := chunk[j];
      }
    }
  }

  /** `simple_hash`: a failed open gives 0; otherwise every byte of every
      read that returns more than 0 is added into the wrapping accumulator,
      only the first n bytes of `buf` after each read, and the loop stops at
      the first read returning 0 or less. The result is the checksum of the
      content delivered, and so is independent of the chunking. `calls`
      counts the `read` calls made: one per chunk, plus the final one that
      returned 0 or less, and none after it. */
  method SimpleHash(sign: Signedness, file: FileModel) returns (hash: Uint32, ghost calls: nat)
    ensures hash == HashOf(sign, file)
    ensures calls == (if file.openSucceeded then |file.chunks| + 1 else 0)
  {
    if !file.openSucceeded {
      return 0, 0;
    }
    hash := 0;
    var buf := new Byte[BufSize];
    var k := 0;  // number of reads that returned data
    var n := ReadChunk(file, k, buf);
    calls := 1;
    while n > 0
      invariant 0 <= k <= |file.chunks|
      invariant calls == k + 1
      invariant n == ReadReturn(file, k)
      invariant n > 0 ==> buf[..n] == file.chunks[k]
      invariant hash == Accumulate(sign, 0, Flatten(file.chunks[..k]))
      decreases |file.chunks| - k
    {
      ghost var start := hash;
      ghost var chunk := file.chunks[k];
      for i := 0 to n
        modifies {}
        invariant hash == Accumulate(sign, start, chunk[..i])
      {
        assert chunk[..i + 1][..i] == chunk[..i];
        hash := WrappingAdd(hash, Contribution(sign, buf[i]));
      }
      assert chunk[..n] == chunk;
      AccumulateNextChunk(sign, file.chunks, k);
      k := k + 1;
      n := ReadChunk(file, k, buf);
      calls := calls + 1;
    }
    AccumulateAllChunks(sign, file);
  }
}
