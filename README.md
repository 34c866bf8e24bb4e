# bitstream-io: bit reader, bit writer and Huffman tables in Dafny

This project models the core of the Rust crate `bitstream-io`. The crate reads
and writes values that are not whole bytes. It can use either bit order:

- **big-endian**: the most significant bit of each byte comes first;
- **little-endian**: the least significant bit comes first.

The project models three parts of the crate:

- `BitReader` (`src/read.rs`) pulls bytes from a source. It keeps a queue of
  at most 8 bits that it has not yet handed out. It reads:
  - fields of 0..64 bits;
  - single bits;
  - whole bytes;
  - unary-coded counts;
  - two's-complement signed fields.

  It can also skip bits, realign to a byte boundary and report the unread
  partial byte.
- `BitWriter` (`src/write.rs`) is the mirror image. It queues fewer than 8
  bits and pushes every completed byte to its sink. It also pads to a byte
  boundary.
- The Huffman compilers (`src/huffman.rs`) turn a list of `(symbol, code)`
  pairs into two things:
  - a read tree, which is a complete binary trie of leaves;
  - a write table, with one big-endian and one little-endian map from each
    symbol to its `(length, value)` field.

Modules:

- `Bits` holds the shared foundations:
  - the bit queue;
  - the meaning of a field (`ToBits`/`FromBits` in each bit order);
  - the bit string of a byte sequence (`BytesBits`);
  - unary runs;
  - two's-complement fields (`SignedBits`).
- `Read` holds the `BitReader` class. The input bytes are a constant
  sequence. `pos` is the number of bytes consumed so far, and `queue` holds
  the buffered bits. The ghost `stream` is the input's bit string. Every
  reading method states two things:
  - how far the cursor (`8*pos - queue.bits`) moves;
  - what bits it passed over.

  A failure with `UnexpectedEof` happens exactly when the stream is too short.
- `Write` holds the `BitWriter` class. `output` is the bytes the sink has
  received, and `queue` holds the pending bits. The ghost `written` is every
  bit written so far. Each writing method states exactly what it appends to
  `written`. It also keeps the invariant
  `written == BytesBits(output) + QueueBits(queue)`.
- `Huffman` models `WipHuffmanTree::add` and `into_read_tree` as functions
  over a datatype. It builds the read tree with a loop and the write table
  with a loop. Lemmas state when building succeeds or fails, with which
  error, and what each tree or table maps each code or symbol to.
- `RoundTrip` connects the two halves:
  - a field, a signed field or a unary count written and then read back
    gives the same value;
  - the write table's field for a symbol is a code that the read tree takes
    back to that symbol.

Integers are unbounded in Dafny. The crate's `u8`/`u32`/`u64` widths appear
as explicit bounds: a field is at most `width` bits wide for
`width ∈ {8, 16, 32, 64}`, and a queue holds at most 8 bits. A signed value
of width `w` lies in `-2^(w-1) .. 2^(w-1)-1`.

## Model

| member | source | states |
|---|---|---|
| Bits.Push | src/write.rs:211-212 | pushing `n` bits of `v` onto a queue appends exactly the field `ToBits(e, v, n)` to the queue's bits, whatever the bit order |
| Bits.Pop | src/read.rs:185-186 | popping `n` bits hands out the value whose field is the first `n` queued bits and leaves the rest in the queue |
| Bits.PopRun | src/read.rs:447-463 | `pop_1`/`pop_0` on a queue that is not all `b` returns the length of the run of `b` at its front and removes that run together with the bit that stops it |
| Bits.SignedBitsSplit | src/write.rs:502-507 | a two's-complement field is a sign bit together with the `bits-1`-bit magnitude `value + 2^(bits-1)` (negative) or `value` (non-negative), with the sign first in big-endian and last in little-endian |
| Bits.SignedFromParts | src/read.rs:668 | a sign bit and a magnitude read back as a field denote the value `m - 2^(n-1)` when negative, `m` otherwise, and that value fits `n` bits |
| Bits.SignedBitsInjective | src/read.rs:662-673 | two values that fit `n` bits and have the same signed field are equal |
| Bits.DocumentedFieldsBig | src/read.rs:150-155 | in big-endian order the byte `0b10110111` is exactly the fields 1 (1 bit), 0b01 (2 bits) and 0b10111 (5 bits), as the `read` and `write` examples state (also src/write.rs:168-172) |
| Bits.DocumentedFieldsLittle | src/read.rs:161-166 | in little-endian order the byte `0b10110111` is exactly the fields 1 (1 bit), 0b11 (2 bits) and 0b10110 (5 bits), as the `read` and `write` examples state (also src/write.rs:181-185) |
| Bits.DocumentedSignedBig | src/read.rs:644-648 | in big-endian order the byte `0b10110111` is exactly the signed 4-bit fields -5 then 7, as the `read_signed` and `write_signed` examples state |
| Bits.DocumentedSignedLittle | src/read.rs:690-694 | in little-endian order the byte `0b10110111` is exactly the signed 4-bit fields 7 then -5 |
| Bits.RunLengthUnique | src/read.rs:447-463 | a bit string starts with at most one run of `b` that ends in `!b`, so a unary count is determined by the bits |
| Read.BitReader.constructor | src/read.rs:85-87 | a new reader is at cursor 0 of the bit string of its whole input, with an empty queue |
| Read.BitReader.ReadByte | src/read.rs:723-726 | yields the next input byte and advances by one, or fails with `UnexpectedEof` exactly at the end of input without consuming anything |
| Read.BitReader.ReadExact | src/read.rs:737 | fills the buffer with the next bytes exactly when that many remain; otherwise fails with `UnexpectedEof` and consumes nothing |
| Read.BitReader.PushBytes | src/read.rs:738-739 | pushing whole bytes onto an accumulator appends their bit strings in the reader's bit order |
| Read.BitReader.ReadAligned | src/read.rs:728-740 | reads `bytes` whole bytes onto the accumulator exactly when they remain; the accumulator then holds the bits from its start up to the new byte position |
| Read.BitReader.ReadUnaligned | src/read.rs:759-774 | moves `bits` (< 8 or 8) bits from a fresh byte into the accumulator and leaves the rest of that byte queued; fails without change when input is exhausted |
| Read.BitReader.ReadAcross | src/read.rs:187-199 | a read longer than the queue returns the value whose field is the next `bits` bits of the stream, and advances the cursor by `bits`, exactly when that many bits remain |
| Read.BitReader.Read | src/read.rs:180-204 | more bits than the width gives `InvalidInput` and changes nothing; otherwise succeeds exactly when `bits` bits remain, returns the value `< 2^bits` whose field is those bits, advances by `bits`, and fails with `UnexpectedEof` otherwise |
| Read.BitReader.ReadBit | src/read.rs:130-135 | returns the next bit of the stream and advances by one, or fails at the end with `UnexpectedEof` and changes nothing |
| Read.BitReader.SkipAligned | src/read.rs:742-755 | skips `bytes` whole bytes exactly when they remain |
| Read.BitReader.SkipUnaligned | src/read.rs:777-789 | skips up to 8 bits from a fresh byte exactly when they remain, queueing the rest of it |
| Read.BitReader.Skip | src/read.rs:239-252 | advances the cursor by `bits` exactly when that many bits remain; otherwise `UnexpectedEof` |
| Read.BitReader.ReadBytesUnaligned | src/read.rs:278-282 | reading bytes one 8-bit field at a time yields the bit string of the buffer and advances by 8 bits per byte |
| Read.BitReader.ReadBytes | src/read.rs:275-284 | the buffer receives the next `8*len` bits as bytes, on the aligned and the unaligned path alike, exactly when that many bits remain |
| Read.BitReader.ReadAlignedUnary | src/read.rs:792-804 | counts 8 per saturated byte until the first byte that is not, which it queues; fails with `UnexpectedEof` exactly when every remaining byte is saturated |
| Read.BitReader.ReadUnaryAcross | src/read.rs:452-458 | when the queue is all `b`, returns the length of the run of `b` from the cursor, which continues into the following bytes, and consumes the run and its stop bit |
| Read.BitReader.ReadUnary | src/read.rs:447-463 | succeeds exactly when a `!b` lies ahead; returns the number of `b` bits before it and consumes them with the stop bit |
| Read.BitReader.ReadUnary0 | src/read.rs:447-463 | returns the number of 1 bits before the next 0 and consumes that 0; `UnexpectedEof` exactly when no 0 remains |
| Read.BitReader.ReadUnary1 | src/read.rs:496-512 | returns the number of 0 bits before the next 1 and consumes that 1; `UnexpectedEof` exactly when no 1 remains |
| Read.BitReader.ReadSignedBig | src/read.rs:662-673 | `bits > width` gives `InvalidInput`; otherwise succeeds exactly when `bits` bits remain and returns the value that fits `bits` bits and whose big-endian two's-complement field (sign first) is those bits |
| Read.BitReader.ReadSignedLittle | src/read.rs:708-719 | as for big-endian, with the sign bit read last |
| Read.BitReader.ByteAligned | src/read.rs:530-532 | true exactly when the cursor is on a byte boundary |
| Read.BitReader.ByteAlign | src/read.rs:549-551 | moves the cursor forward to the next byte boundary (not at all when aligned) |
| Read.BitReader.IntoUnread | src/read.rs:625-627 | the unread bit count is below 8 and the value is below `2^count`, and that field is exactly the remaining bits of the current byte |
| Read.ReadConsumes | src/read.rs:187-199 | a read of `bits` bits past a queue of `len` bits consumes `ceil((bits-len)/8)` more bytes and leaves `(8 - (bits-len) mod 8) mod 8` bits queued |
| Write.BitWriter.constructor | src/write.rs:94-96 | a new writer has written nothing and sent nothing to its sink |
| Write.BitWriter.WriteBit | src/write.rs:141-148 | appends exactly the one bit; a byte goes to the sink exactly when the queue fills |
| Write.BitWriter.WriteUnaligned | src/write.rs:560-577 | tops up a partly filled queue from the front of the accumulator, sending the byte once full; the bits moved are exactly those taken from the accumulator |
| Write.BitWriter.PopBytes | src/write.rs:583-590 | pops `count` whole bytes off the accumulator whose bit strings are the first `8*count` bits it held |
| Write.BitWriter.WriteAligned | src/write.rs:579-595 | sends every whole byte at the front of the accumulator to the sink and keeps the fewer than 8 remaining bits |
| Write.BitWriter.Write | src/write.rs:202-221 | `bits > width` gives `InvalidInput`; a value of `2^bits` or more (for `bits < width`) gives `InvalidInput`; in both cases nothing changes; otherwise appends exactly `ToBits(endian, value, bits)` to what was written |
| Write.BitWriter.WriteAcross | src/write.rs:213-220 | a write that fills the queue appends exactly the field, sends the whole bytes and keeps the remainder queued |
| Write.BitWriter.WriteBytes | src/write.rs:247-256 | appends the bit string of the buffer, aligned or not |
| Write.BitWriter.RunMask | src/write.rs:330-337 | the mask used for an `n`-bit run is the value whose `n`-bit field is `n` copies of `b` |
| Write.BitWriter.WriteRun | src/write.rs:330-337 | writes a run of `n` copies of `b` in one field, then the stop bit `!b` |
| Write.BitWriter.WriteWord | src/write.rs:339 | writes 64 copies of `b` in one 64-bit field |
| Write.BitWriter.WriteLongRun | src/write.rs:338-341 | the loop for counts above 64 appends a run of `b` and leaves a remainder between 1 and 64 |
| Write.BitWriter.WriteHuffman | src/write.rs:283-293 | for a symbol in a valid table, appends exactly the field the table holds for it in the writer's bit order, and that field fits its length |
| Write.BitWriter.WriteUnary0 | src/write.rs:327-344 | appends `value` one bits and then a zero bit |
| Write.BitWriter.WriteUnary1 | src/write.rs:379-389 | appends `value` zero bits and then a one bit |
| Write.BitWriter.WriteMagnitude | src/write.rs:504 | writes the `n`-bit magnitude of a signed value |
| Write.BitWriter.WriteSignedBig | src/write.rs:496-509 | succeeds exactly when `bits <= width` and the value fits `bits` bits as two's complement; on success appends exactly its big-endian signed field; on failure gives `InvalidInput` and changes nothing (corrected, see Findings) |
| Write.BitWriter.WriteSignedLittle | src/write.rs:537-550 | as for big-endian, with the sign bit written last (corrected, see Findings) |
| Write.BitWriter.ByteAligned | src/write.rs:406 | true exactly when the number of bits written is a multiple of 8 |
| Write.BitWriter.PadBit | src/write.rs:429-431 | one padding step appends a zero bit and advances the queue length modulo 8 |
| Write.BitWriter.ByteAlign | src/write.rs:428-433 | appends the fewest zero bits (0..7) that bring the written bits to a byte boundary; the queue is then empty |
| Write.BitWriter.IntoUnwritten | src/write.rs:467-469 | the unwritten bit count is below 8, and the field of that many bits is exactly what was written but not sent to the sink |
| Write.SignedAcceptedAsWritten | src/write.rs:496-509 | the acceptance condition of `write_signed` as written: only `bits <= width`, then the magnitude (or the value) must not reach `one << (bits-1)` of the signed type; its consequences are the three lemmas below |
| Write.SignedAcceptedAsWrittenIff | src/write.rs:496-509 | for `bits < width`, the checks as written accept a value exactly when it is below `2^(bits-1)`, so they never refuse a too-negative value |
| Write.SignedAcceptsOutOfRange | src/write.rs:496-509 | the checks as written accept `-100` in a 4-bit field of an 8-bit type, which does not fit 4 bits |
| Write.SignedRefusesFullWidth | src/write.rs:208 | the checks as written refuse every value when `bits` equals the type's width, though every value of the type fits |
| Huffman.Add | src/huffman.rs:99-129 | after a successful add the code leads to the symbol; an add never fails with `MissingLeaf` (its full success condition is AddOkIff, its errors AddErrors) |
| Huffman.AddAll | src/huffman.rs:51-53 | adding the pairs in order never fails with `MissingLeaf`; the first failing add decides the error |
| Huffman.BuildReadTree | src/huffman.rs:47-56 | `MissingLeaf` is reported exactly when every add succeeded, and then the built tree has an empty slot |
| Huffman.IntoReadTree | src/huffman.rs:83-97 | succeeds exactly when the tree has no empty slot, with a read tree that has the same shape and leaves; otherwise `MissingLeaf` |
| Huffman.AddOkIff | src/huffman.rs:99-129 | adding a code succeeds exactly when every element is 0 or 1 and the path ends at, or passes through, an empty slot |
| Huffman.AddFresh | src/huffman.rs:99-129 | a code that is added successfully did not already lead to a symbol |
| Huffman.AddFind | src/huffman.rs:99-129 | after a successful add, the added code leads to the symbol and every other code leads where it led before |
| Huffman.AddErrors | src/huffman.rs:99-129 | `InvalidBit` only for a non-0/1 element; `OrphanedLeaf` only when a proper prefix of the code is a leaf; `DuplicateLeaf` only when the code's own path is already filled; never `MissingLeaf` |
| Huffman.AddAllFinds | src/huffman.rs:51-53 | adding every pair in turn makes each pair's code lead to its symbol |
| Huffman.LookupWip | src/huffman.rs:83-97 | a finished read tree maps a code to the same symbol as the tree it was made from |
| Huffman.BuildReadTreeFinds | src/huffman.rs:47-56 | the compiled read tree maps every given code to its symbol |
| Huffman.BuildReadTreeOkIff | src/huffman.rs:47-56 | compiling succeeds exactly when every add succeeds and no empty slot remains |
| Huffman.ToWipFull | src/huffman.rs:83-97 | a read tree has no empty slot |
| Huffman.CompleteCodesAccepted | src/huffman.rs:33-35 | the codes `0`, `10`, `11` compile into a read tree |
| Huffman.MissingCodeRejected | src/huffman.rs:44-45 | the codes `0`, `11` are refused because `10` has no symbol |
| Huffman.NewReadTree | src/huffman.rs:47-56 | the loop over the pairs computes the same result as the left fold of `add`, stopping at the first error |
| Huffman.EncodeCode | src/huffman.rs:193-207 | a code is refused with `InvalidBit` exactly when an element is not 0 or 1; otherwise it encodes in each bit order as `(length, value)`, where `value` is the field of the code's bits |
| Huffman.PushCodeBit | src/huffman.rs:201-202 | pushing one code element appends that bit to the queue |
| Huffman.EnterAll | src/huffman.rs:190-208 | the loop over the pairs fails only with `InvalidBit`, and on success every symbol already in either map keeps a key |
| Huffman.BuildWriteTree | src/huffman.rs:182-212 | `WriteHuffmanTree::new` reports no error other than `InvalidBit` |
| Huffman.NewWriteTree | src/huffman.rs:182-212 | the loop over the pairs computes the write table of the pairs, or the first `InvalidBit` |
| Huffman.EnterAllOkIff | src/huffman.rs:193-200 | building a table fails exactly when some code has an element that is not 0 or 1, and then with `InvalidBit` |
| Huffman.EnterAllKeeps | src/huffman.rs:204-207 | each map's keys become the old keys and the new symbols, and existing entries are never replaced |
| Huffman.EnterAllFirst | src/huffman.rs:171 | a symbol's entry comes from its first occurrence in the list |
| Huffman.BuildWriteTreeFacts | src/huffman.rs:182-212 | the table is built exactly when all codes are bits; both maps have exactly the listed symbols as keys, and each holds the first code's entry |
| Huffman.HasSymbol | src/huffman.rs:215-217 | `has_symbol`: the symbol has a big-endian entry; which symbols those are is HasSymbolIff |
| Huffman.Get | src/huffman.rs:219-229 | `get_be`/`get_le`, defined only for a symbol with entries (the source panics otherwise); in a valid table the entry is at most 64 bits and its value fits its length |
| Huffman.HasSymbolIff | src/huffman.rs:215-217 | `has_symbol` is true exactly for symbols that occur in the list |
| Huffman.EntryBits | src/huffman.rs:193-207 | the entry of a code, read as a field of its length, is the code's bits, in either bit order |
| Huffman.BuildWriteTreeValid | src/huffman.rs:219-229 | a built table has equal key sets, and each entry fits its length; `get_be`/`get_le` of a symbol give the field of its first code |
| RoundTrip.Finish | src/write.rs:428-433 | after `byte_align` the sink holds everything written followed by exactly `(8 - written mod 8) mod 8` zero bits |
| RoundTrip.WriteField | src/write.rs:202-221 | the bytes of a fresh writer after `write` and `byte_align` are exactly the field followed by `(8 - bits mod 8) mod 8` zero bits |
| RoundTrip.ReadField | src/read.rs:180-204 | a field read from fresh bytes is the front of their bit string, exactly when there are enough bits |
| RoundTrip.FieldRoundTrip | src/read.rs:180-204 | `read` of `bits` bits gives back the value that `write` wrote, in either bit order |
| RoundTrip.WriteSignedField | src/write.rs:496-509 | the bytes of a fresh writer after `write_signed` and `byte_align` are exactly the signed field followed by `(8 - bits mod 8) mod 8` zero bits |
| RoundTrip.ReadSignedField | src/read.rs:662-673 | a signed field read from fresh bytes is the front of their bit string |
| RoundTrip.SignedRoundTrip | src/read.rs:708-719 | `read_signed` gives back the value `write_signed` wrote, in either bit order |
| RoundTrip.WriteUnaryField | src/write.rs:327-344 | the bytes of a fresh writer after `write_unary0` (or `write_unary1`, src/write.rs:379-389) and `byte_align` are exactly the run, its stop bit and the zero padding |
| RoundTrip.ReadUnaryField | src/read.rs:496-512 | `read_unary1` (or `read_unary0`, src/read.rs:447-463) from fresh bytes succeeds exactly when a stop bit is present, and the run and stop bit are the front of the bytes' bits |
| RoundTrip.UnaryRoundTrip | src/read.rs:447-463 | `read_unary0` gives back the count `write_unary0` wrote, and `read_unary1` the count `write_unary1` wrote, for every `u32` count in either bit order |
| RoundTrip.HuffmanAgree | src/huffman.rs:21-24 | for a list that compiles both ways, the write table's field for a symbol spells a code that the read tree maps back to that symbol |

## Left out

- I/O errors other than running out of input are left out: a sink that
  refuses bytes, or a reader that fails for another reason. The sink is an
  append-only byte sequence and the source is a fixed byte sequence.
- The state of a reader or writer after an error is left out; the source
  leaves it partly advanced. The members below promise only `Valid()` in that
  case:
  - Read.BitReader.Read: after `UnexpectedEof` it promises only that the
    reader stays `Valid()`, not where the cursor is.
  - Read.BitReader.Skip: after `UnexpectedEof` it promises only `Valid()`.
  - Read.BitReader.ReadBytes: after `UnexpectedEof` it promises only
    `Valid()`, and the buffer contents are not stated.
  - Read.BitReader.ReadUnary0: after `UnexpectedEof` it promises only
    `Valid()`.
  - Read.BitReader.ReadUnary1: after `UnexpectedEof` it promises only
    `Valid()`.
  - Read.BitReader.ReadSignedBig: after `UnexpectedEof` it promises only
    `Valid()`.
  - Read.BitReader.ReadSignedLittle: after `UnexpectedEof` it promises only
    `Valid()`.
- Read.BitReader.ReadSignedBig: it requires `bits >= 1`. With `bits == 0`
  the source computes `bits - 1` on a `u32`, which overflows.
- Read.BitReader.ReadSignedLittle: it requires `bits >= 1`, for the same
  reason as ReadSignedBig (src/read.rs:712 computes `bits - 1` on a `u32`).
- Read.BitReader.ReadUnary0: the count is an unbounded natural. The source
  counts in a `u32`, which would overflow after 2^32 saturated bits.
- Read.BitReader.ReadUnary1: the count is an unbounded natural. The source
  counts in a `u32`, as ReadUnary0 does.
- Write.BitWriter.Write: it takes values as naturals. A negative value of a
  signed type passed to `write` is not modelled.
- Write.BitWriter.WriteUnary0: it requires the count to be below 2^32. The
  source takes a `u32`.
- Write.BitWriter.WriteUnary1: it requires the count to be below 2^32. The
  source takes a `u32`, as for WriteUnary0.
- Write.BitWriter.WriteSignedBig: it requires the value to be in the range
  of its signed type. It also checks the field's range before writing
  anything, where the source writes the sign bit first (see Findings).
- Write.BitWriter.WriteSignedLittle: same as WriteSignedBig.
- Write.BitWriter.WriteHuffman: it requires the symbol to be in a table
  built by `WriteHuffmanTree::new`, since `get_be`/`get_le` panic otherwise.
  The writer takes the entry for its own bit order and writes it as one
  field. The source calls `tree.get(symbol)`, which returns a list of
  fields. That method is not part of this model: the `WriteHuffmanTree`
  shown has only `get_be`/`get_le`.
- Huffman.NewWriteTree: it requires every code to have at most 64 elements.
  Longer codes overflow the source's 64-bit queues, and the crate notes
  that it only supports them up to 64 bits.
- `WipHuffmanTree::add` mutates the tree in place. The model treats it as a
  function that returns the new tree. On an error the source's partly
  extended tree is dropped, because `ReadHuffmanTree::new` returns the
  error at once.
- `read_huffman` is not part of this model. It walks a `ReadHuffmanTree` of
  a different shape than the one in `src/huffman.rs`.
- The sub-reader constructor, `Display` for the error type, and the
  `Numeric`/`SignedNumeric` traits are left out. The traits become
  `IsWidth(width)` with natural-number values. `as_negative` and
  `as_unsigned` are defined outside these files. They are taken to add or
  subtract `2^(bits-1)`, the usual two's-complement reading.
- The byte-aligned fast paths of `read_bytes` and `write_bytes` are
  modelled at the level of their effect on the stream. The source's
  `read_exact`/`write_all` calls are replaced by byte-sequence slices.
- The queue's machine integers are modelled as naturals bounded by
  `2^bits`. Shifts and masks are not modelled bit by bit.

## Findings

| source | as written | input that shows it | evidently intended | confidence | as-written member | corrected member |
|---|---|---|---|---|---|---|
| src/write.rs:496-509 | only `bits > width` and, via `write`, `m >= 2^(bits-1)` are refused; a negative value below `-2^(bits-1)` gives a negative `m` and is accepted | `write_signed::<i8>(4, -100)` is accepted though -100 does not fit 4 bits | refuse with `InvalidInput` any value outside `-2^(bits-1) .. 2^(bits-1)-1` | not executed | Write.SignedAcceptsOutOfRange | Write.BitWriter.WriteSignedBig |
| src/write.rs:208 | with `bits == width` the inner `write(bits-1, m)` compares `m` against `one << (width-1)`, which in the signed type is its minimum, so every value is refused (in big-endian after the sign bit was already written) | `write_signed::<i8>(8, 5)` fails with `InvalidInput` | accept every value of the type in a field as wide as the type | not executed | Write.SignedRefusesFullWidth | Write.BitWriter.WriteSignedLittle |
