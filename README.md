# mozlz4-read: the mozLz4 container decoder in Dafny

`mozlz4-read` decompresses a Firefox mozLz4 file (session store and similar)
to standard output. A mozLz4 container is:

- the 8-byte magic `"mozLz40"` plus its NUL;
- a 4-byte little-endian declared decompressed size;
- an LZ4 block payload.

This project models what `void_main` in `main.c` does between mapping the
file and exiting:

- the gate sequence that validates the container and calls the LZ4 block
  decompressor once;
- the loop that writes the decompressed bytes to standard output.

Modules:

- `Container` (container.dfy): the magic, the field sizes and the payload
  offset. Also the declared-size decoding exactly as the source writes it
  (or-ing shifted bytes in 32-bit arithmetic), and C's conversion to the
  32-bit `int`. Lemmas tie the bitwise decoding to the arithmetic
  little-endian value and to its inverse encoding.
- `Decoder` (decoder.dfy): `Decode`, a pure function from the mapped bytes to
  `Success(output)` or `Failure(e)`. It has one error constructor per gate.
  The allocator's answer is a `bool` parameter. `LZ4_decompress_safe` is a
  function parameter, and all that is assumed of it (`Lz4Contract`) is what
  the source relies on: the result is a 32-bit `int`, a non-negative result
  `n` means `n` bytes were written, and `n` never exceeds the capacity given. Lemmas cover each gate,
  the order of the gates, and decoding of containers built by `Frame`.
- `Output` (output.dfy): the write loop as a method. The operating system's
  answers to the successive `write` calls are an input sequence.
- `Program` (program.dfy): decoding followed by writing, with the exit code
  and the bytes that reach standard output.

The gates, in the order the code runs them:

1. length of at least 12 bytes;
2. magic;
3. declared size at most `INT_MAX`;
4. allocation of the output buffer;
5. payload length at most `INT_MAX`;
6. non-negative decompressor result;
7. result equal to the declared size.

The code allocates the output buffer (main.c:94-99) before it checks the
payload length (main.c:101-104). The model follows the code, so an input
whose allocation fails is reported as an allocation failure even when its
payload is also too long. The mismatch at main.c:120-123 is printed as a
"Warning", but the process still exits with failure, and the model treats
it as an error.

## Model

| member | source | states |
|---|---|---|
| `Container.MagicIsHeaderString` | main.c:18-23 | The magic is the 7 characters of "mozLz40" followed by a NUL byte, 8 bytes in all, and the payload offset is 12 |
| `Container.SizeFieldValue` | main.c:80-84 | Or-ing the four size bytes shifted by 0, 8, 16 and 24 in 32 bits gives exactly `b[8] + 256*b[9] + 65536*b[10] + 16777216*b[11]` |
| `Container.LittleEndianValue` | main.c:80-84 | The declared size always lies in `[0, 2^32)` |
| `Container.SizeFieldOfBytes` | main.c:80-84 | Decoding the 4-byte encoding of any 32-bit value gives the value back |
| `Container.SizeField` | main.c:80-84 | The 32-bit value decoded from the four size bytes holds each byte in its own 8 bits, so encoding it gives the same four bytes back |
| `Container.ToCInt` | main.c:91 | The conversion to `int` yields a value in `[-2^31, 2^31)` congruent to its argument modulo 2^32 |
| `Container.ToCIntExact` | main.c:91 | A value in the range of `int` converts exactly, so `header_size` equals the declared size once the gate has passed |
| `Container.ToCIntWrapsAboveIntMax` | main.c:86-91 | A declared size above `INT_MAX` would turn negative if converted, which is why the gate rejects it instead |
| `Decoder.Payload` | main.c:101-111 | The payload is bytes 12.. of the input, of length `N - 12`, and header plus payload is the whole input |
| `Decoder.DeclaredSize` | main.c:80-84 | The decoded `header_size_u` lies in `[0, 2^32)` and is the little-endian value of bytes 8..12 |
| `Decoder.ReadHeader` | main.c:67-92 | The header is accepted exactly when the input has at least 12 bytes, the magic matches and the declared size is at most `INT_MAX`; the result is then the declared size |
| `Decoder.CheckDecompressed` | main.c:115-123 | Success exactly when the decompressor's count equals the declared size, and then the output is exactly the bytes it wrote; a negative result `n` fails with the code `-n`, which is positive; a non-negative count other than the declared size fails as a mismatch carrying the declared size and the count |
| `Decoder.Decode` | main.c:67-123 | Success implies a long enough input with the exact magic, and an output of exactly the declared size, at most `INT_MAX` |
| `Decoder.TooSmallIffShort` | main.c:67-70 | An input is rejected as too small, with its length, exactly when it is shorter than 12 bytes |
| `Decoder.ShortInputIsNotRead` | main.c:67-70 | Two short inputs of equal length decode alike, whatever their bytes, the allocator and the decompressor: no header byte is read before the length check |
| `Decoder.BadMagicIffSomeByteDiffers` | main.c:72-75 | An input of at least 12 bytes fails the magic gate exactly when some byte among 0..7 differs from the magic |
| `Decoder.AnyMagicByteChangeRejected` | main.c:72-75 | Changing any single magic byte of an accepted header to any other value makes the input fail the magic gate |
| `Decoder.DeclaredSizeAboveIntMaxRejected` | main.c:86-89 | A declared size above `INT_MAX` is rejected with its value, whatever the allocator and the decompressor would do |
| `Decoder.DecompressionCodeInRange` | main.c:108-118 | A decompression failure carries a code between 1 and 2^31, and the code is 2^31 exactly when the decompressor returned `INT_MIN` |
| `Decoder.AllocationFailureRejected` | main.c:94-99 | With an accepted header, a failed allocation is reported with the requested size, before the payload-length check |
| `Decoder.DecompressorSeesPayload` | main.c:101-113 | After the header and allocation gates, a payload longer than `INT_MAX` is rejected; otherwise the decompressor gets bytes 12.., their exact count and the declared size as capacity, and its result alone decides the outcome |
| `Decoder.FirstFailingGateReported` | main.c:67-123 | Decoding succeeds exactly when all seven gates pass, and then returns the decompressor's bytes, exactly the declared size of them; a failure names the first gate, in source order, that the input fails |
| `Decoder.ReadHeaderOfFrame` | main.c:67-92 | A container built from a declared size and a payload reads back that size and that payload, and its header is accepted exactly when the size is at most `INT_MAX` |
| `Decoder.AcceptedHeaderIsFrame` | main.c:67-92 | Every input whose header is accepted is the container built from its declared size and payload |
| `Decoder.DecodeFrame` | main.c:67-123 | Decoding a container whose sizes fit passes its payload and declared size to the decompressor, and yields exactly its output when the count matches |
| `Decoder.DeclaredSizeTwoTo31Rejected` | main.c:86-89 | A declared size of exactly 2^31 is rejected, whatever the payload, allocator and decompressor |
| `Output.NextOffset` | main.c:130-137 | A failed call, EINTR included, leaves `offset` unchanged, and `offset` moves forward exactly when a positive count was written |
| `Output.WriteAll` | main.c:125-138 | The bytes written are exactly the first `offset` bytes, in order. The loop ends exactly when `offset` reaches the count, or on a non-EINTR error. `offset` starts at 0, never decreases, stays within `[0, count]`, grows by each count written, and is unchanged by an EINTR |
| `Program.DecodeAndWrite` | main.c:67-140 | A rejected input exits with failure and writes nothing. Otherwise standard output gets a prefix of the decoded bytes, and the exit code is success exactly when it gets all of them |

## Left out

- Opening, `fstat`, `mmap` and `posix_madvise` (main.c:36-65) are file
  acquisition. The input is the already mapped byte sequence, and its length
  is an unbounded `nat`. It is not a `size_t`, so the `(size_t)st_size`
  conversion is not modelled. The subtraction at main.c:101 only runs after
  the length gate, so it is an ordinary subtraction here.
- An empty file never reaches the length gate: `mmap` of length 0 fails and
  the program exits at main.c:58-61. `Decode` still rejects the empty
  sequence as too small, which is what the gate would do.
- Decoder.CheckDecompressed: the model negates every negative result
  exactly. For the result `INT_MIN`, `-decompressed_count` at main.c:116 is
  undefined behaviour in C's `int`; the model reports the code 2^31 there.
- `prctl(PR_SET_SECCOMP, ...)` (main.c:106) and `syscall_exit` (main.c:29-32)
  are process hardening and termination. They do not change what is decoded.
- `malloc` (main.c:94) is only its outcome, the `mallocOk` parameter. The
  buffer it returns is not modelled. Whether `malloc(0)` returns `NULL` is up
  to the C library, so a zero declared size may go either way.
- `LZ4_decompress_safe` (main.c:108-113) is not part of this model. It is a
  parameter constrained only by `Lz4Contract`.
- The `write` system call and `errno` (main.c:128-131) are given as a finite
  sequence of answers. `Answers` requires each count to lie between 1 and
  the bytes still to write, and requires the answers to end once the data
  is flushed or after a non-EINTR error.
- `Output.WriteAll` does not model endless EINTR answers, or `write`
  returning 0 or more than was asked. With any of these the source loop
  spins forever or overshoots, and POSIX rules out the last two.
- `main`'s argument-count check, `show_usage` (main.c:25-27, 143-150) and the
  text of every diagnostic are the command-line interface. The error values
  keep only the numbers the messages print.
- Streamed ingestion into a growable buffer is not modelled. `main.c` reads
  its input only by mapping the file, so it has no buffer-growth code.
