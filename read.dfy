/** The bit reader of src/read.rs.

    `BitReader` reads fields of any number of bits from a byte source. The
    source is an input byte sequence and a cursor `pos` into it; `queue` is the
    partial byte left over from earlier reads (the crate's `BitQueue<E, u8>`).
    The abstract state is a bit cursor into `stream`, the whole input as bits
    in stream order: every read returns the bits between the old and the new
    cursor, and the cursor advances by exactly the number of bits read. */
module Read {
  import opened Bits
  import opened Results

  class BitReader {
    const endian: Endianness
    const input: seq<Byte>
    var pos: nat
    var queue: BitQueue

    /** The whole input as bits, in the reader's bit order. */
    ghost const stream: seq<bool>

    /** The number of bits read so far. */
    ghost function Cursor(): int
      reads this
    {
      8 * pos - queue.bits
    }

    /** The reader has taken `pos` whole bytes from the source and caches the
        unread tail of the last of them: the first `pos` bytes are the bits read
        so far followed by the queued bits, which are at most a partial byte. */
    ghost predicate Valid()
      reads this
    {
      Decodes(endian, input, stream) &&
      pos <= |input| && queue.Valid() && queue.bits < 8 && queue.bits <= 8 * pos &&
      stream[..8 * pos] == stream[..Cursor()] + QueueBits(endian, queue)
    }

    /** `BitReader::new` */
    constructor (endian: Endianness, input: seq<Byte>)
      ensures Valid() && this.endian == endian && this.input == input
      ensures stream == BytesBits(endian, input) && Cursor() == 0
    {
      this.endian := endian;
      this.input := input;
      stream := BytesBits(endian, input);
      pos := 0;
      queue := EmptyQueue;
      new;
      BytesBitsDecodes(endian, input);
      PrefixEmpty(stream, 8 * pos, Cursor(), QueueBits(endian, queue));
    }

    /** `read_byte`: one byte from the source, or `UnexpectedEof`. */
    method ReadByte() returns (r: Result<Byte, IoError>)
      requires pos <= |input|
      modifies this`pos
      ensures pos <= |input|
      ensures r.Ok? <==> old(pos) < |input|
      ensures r.Ok? ==> r.value == input[old(pos)] && pos == old(pos) + 1
      ensures r.Err? ==> r.error == UnexpectedEof && pos == old(pos)
    {
      if pos < |input| {
        r := Ok(input[pos]);
        pos := pos + 1;
      } else {
        r := Err(UnexpectedEof);
      }
    }

    /** `read_exact`: fill `buf` with the next `buf.Length` bytes of the source,
        or fail with `UnexpectedEof` having taken nothing. */
    method ReadExact(buf: array<Byte>) returns (r: Result<(), IoError>)
      requires pos <= |input|
      modifies this`pos, buf
      ensures pos <= |input|
      ensures r.Ok? <==> old(pos) + buf.Length <= |input|
      ensures r.Err? ==> r.error == UnexpectedEof && pos == old(pos)
      ensures r.Ok? ==> pos == old(pos) + buf.Length
      ensures r.Ok? ==> forall j | 0 <= j < buf.Length :: buf[j] == input[old(pos) + j]
    {
      if pos + buf.Length > |input| {
        return Err(UnexpectedEof);
      }
      var i := 0;
      while i < buf.Length
        invariant 0 <= i <= buf.Length
        invariant forall j | 0 <= j < i :: buf[j] == input[pos + j]
        modifies buf
      {
        buf[i] := input[pos + i];
        i := i + 1;
      }
      pos := pos + buf.Length;
      r := Ok(());
    }

    /** The loop of `read_aligned`: push each byte of `chunk` onto `acc`, 8 bits at a time. */
    static method PushBytes(endian: Endianness, acc: BitQueue, chunk: seq<Byte>) returns (a: BitQueue)
      requires acc.Valid()
      ensures a.Valid() && a.bits == acc.bits + 8 * |chunk|
      ensures QueueBits(endian, a) == QueueBits(endian, acc) + BytesBits(endian, chunk)
    {
      a := acc;
      var i := 0;
      while i < |chunk|
        invariant 0 <= i <= |chunk|
        invariant a.Valid() && a.bits == acc.bits + 8 * i
        invariant QueueBits(endian, a) == QueueBits(endian, acc) + BytesBits(endian, chunk[..i])
      {
        Pow2Byte();
        BytesBitsSnoc(endian, chunk[..i], chunk[i]);
        assert chunk[..i] + [chunk[i]] == chunk[..i + 1];
        a := Push(endian, a, 8, chunk[i]);
        i := i + 1;
      }
      assert chunk[..i] == chunk;
    }

    /** `read_aligned`: read `bytes <= 8` whole bytes in one go (all or nothing)
        and push them onto `acc`, which holds the stream's bits from bit `c` up
        to the byte boundary at `pos`. */
    method ReadAligned(bytes: nat, acc: BitQueue, ghost c: nat) returns (r: Result<BitQueue, IoError>)
      requires Decodes(endian, input, stream) && pos <= |input| && acc.Valid() && bytes <= 8
      requires c <= 8 * pos && stream[..8 * pos] == stream[..c] + QueueBits(endian, acc)
      modifies this`pos
      ensures pos <= |input|
      ensures r.Ok? <==> old(pos) + bytes <= |input|
      ensures r.Err? ==> r.error == UnexpectedEof && pos == old(pos)
      ensures r.Ok? ==> pos == old(pos) + bytes && r.value.Valid() && r.value.bits == acc.bits + 8 * bytes
      ensures r.Ok? ==> stream[..8 * pos] == stream[..c] + QueueBits(endian, r.value)
    {
      var buf := new Byte[bytes];
      ghost var p0 := pos;
      var read := ReadExact(buf);
      if read.Err? {
        return Err(read.error);
      }
      var chunk := buf[..];
      var a := PushBytes(endian, acc, chunk);
      CopyBits(endian, input, stream, p0, chunk, 8 * p0, 8 * pos);
      PrefixChain(stream, c, 8 * p0, 8 * pos, QueueBits(endian, acc), BytesBits(endian, chunk));
      r := Ok(a);
    }

    /** `read_unaligned`: with the queue drained, load the next byte into the
        queue and push its first `bits <= 8` bits onto `acc`, which holds the
        stream's bits from bit `c` up to the cursor. */
    method ReadUnaligned(bits: nat, acc: BitQueue, ghost c: nat) returns (r: Result<BitQueue, IoError>)
      requires Valid() && queue.bits == 0 && bits <= 8 && acc.Valid()
      requires c <= 8 * pos && stream[..8 * pos] == stream[..c] + QueueBits(endian, acc)
      modifies this
      ensures Valid()
      ensures r.Ok? <==> old(Cursor()) + bits <= |stream|
      ensures r.Err? ==> r.error == UnexpectedEof && pos == old(pos) && queue == old(queue)
      ensures r.Ok? ==> Cursor() == old(Cursor()) + bits && r.value.Valid() && r.value.bits == acc.bits + bits
      ensures r.Ok? ==> stream[..Cursor()] == stream[..c] + QueueBits(endian, r.value)
    {
      if bits == 0 {
        return Ok(acc);
      }
      ghost var p0 := pos;
      var byte := ReadByte();
      if byte.Err? {
        return Err(byte.error);
      }
      Pow2Byte();
      queue := BitQueue(byte.value, 8);
      var v;
      v, queue := Pop(endian, queue, bits);
      var a := Push(endian, acc, bits, v);
      LoadSplit(endian, input, stream, p0, c, QueueBits(endian, acc), ToBits(endian, v, bits), QueueBits(endian, queue), pos, Cursor());
      r := Ok(a);
    }

    /** The part of `read` that reaches past the queue: drain the queue, read
        `(bits - len) / 8` whole bytes, then take the remaining bits from one
        more byte, whose rest stays queued. */
    method ReadAcross(bits: nat) returns (r: Result<nat, IoError>)
      requires Valid() && queue.bits < bits <= 64
      modifies this
      ensures Valid()
      ensures r.Ok? <==> old(Cursor()) + bits <= |stream|
      ensures r.Err? ==> r.error == UnexpectedEof
      ensures r.Ok? ==> Cursor() == old(Cursor()) + bits && r.value < Pow2(bits)
      ensures r.Ok? ==> stream[..Cursor()] == stream[..old(Cursor())] + ToBits(endian, r.value, bits)
    {
      ghost var c0 := Cursor();
      var len := queue.bits;
      var whole, last := Split8(bits - len);
      var v;
      v, queue := Pop(endian, queue, len);
      var acc := BitQueue(v, len);
      AppendEmpty(QueueBits(endian, acc), QueueBits(endian, queue));
      var a := ReadAligned(whole, acc, c0);
      PrefixEmpty(stream, 8 * pos, Cursor(), QueueBits(endian, queue));
      if a.Err? {
        return Err(a.error);
      }
      var u := ReadUnaligned(last, a.value, c0);
      if u.Err? {
        return Err(u.error);
      }
      r := Ok(u.value.value);
    }

    /** `read`: an unsigned field of `bits` bits into an integer type of `width` bits.
        A field wider than the type is refused and nothing is consumed; otherwise
        the field is the next `bits` bits of the stream, and it fails only at the
        end of the input. A field that the queue holds is popped from it without
        touching the source. */
    method Read(width: nat, bits: nat) returns (r: Result<nat, IoError>)
      requires Valid() && IsWidth(width)
      modifies this
      ensures Valid()
      ensures bits > width ==> r == Err(InvalidInput) && pos == old(pos) && queue == old(queue)
      ensures bits <= width ==> (r.Ok? <==> old(Cursor()) + bits <= |stream|)
      ensures bits <= width && r.Err? ==> r.error == UnexpectedEof
      ensures r.Ok? ==> Cursor() == old(Cursor()) + bits && r.value < Pow2(bits)
      ensures r.Ok? ==> stream[..Cursor()] == stream[..old(Cursor())] + ToBits(endian, r.value, bits)
      ensures r.Ok? && bits <= old(queue.bits) ==> pos == old(pos)
    {
      if bits > width {
        return Err(InvalidInput);
      }
      if bits <= queue.bits {
        ghost var c0 := Cursor();
        var v;
        v, queue := Pop(endian, queue, bits);
        PrefixSplit(stream, c0, Cursor(), 8 * pos, ToBits(endian, v, bits), QueueBits(endian, queue));
        r := Ok(v);
      } else {
        r := ReadAcross(bits);
      }
    }

    /** `read_bit`: the next bit, loading a byte into the queue when it is empty. */
    method ReadBit() returns (r: Result<bool, IoError>)
      requires Valid()
      modifies this
      ensures Valid()
      ensures r.Ok? <==> old(Cursor()) < |stream|
      ensures r.Err? ==> r.error == UnexpectedEof && pos == old(pos) && queue == old(queue)
      ensures r.Ok? ==> Cursor() == old(Cursor()) + 1
      ensures r.Ok? ==> stream[..Cursor()] == stream[..old(Cursor())] + [r.value]
    {
      ghost var c0 := Cursor();
      ghost var p0 := pos;
      if queue.bits == 0 {
        PrefixEmpty(stream, 8 * pos, Cursor(), []);
        var byte := ReadByte();
        if byte.Err? {
          return Err(byte.error);
        }
        Pow2Byte();
        queue := BitQueue(byte.value, 8);
      }
      var v;
      v, queue := Pop(endian, queue, 1);
      ToBitsSingle(endian, v);
      if pos == p0 {
        PrefixSplit(stream, c0, Cursor(), 8 * pos, [v == 1], QueueBits(endian, queue));
      } else {
        LoadSplit(endian, input, stream, p0, c0, [], [v == 1], QueueBits(endian, queue), pos, Cursor());
      }
      r := Ok(v == 1);
    }

    /** `skip_aligned`: skip whole bytes, at most eight at a time. */
    method SkipAligned(bytes: nat) returns (r: Result<(), IoError>)
      requires pos <= |input|
      modifies this`pos
      ensures pos <= |input|
      ensures r.Ok? <==> old(pos) + bytes <= |input|
      ensures r.Err? ==> r.error == UnexpectedEof
      ensures r.Ok? ==> pos == old(pos) + bytes
    {
      var left: nat := bytes;
      while left > 0
        invariant pos <= |input| && left <= bytes
        invariant pos + left == old(pos) + bytes
      {
        var toRead := if left < 8 then left else 8;
        if pos + toRead > |input| {
          return Err(UnexpectedEof);
        }
        pos := pos + toRead;
        left := left - toRead;
      }
      r := Ok(());
    }

    /** `skip_unaligned`: skip the last `bits <= 8` bits of a skip by loading a
        byte into the drained queue and dropping `bits` of it. */
    method SkipUnaligned(bits: nat) returns (r: Result<(), IoError>)
      requires Valid() && bits <= 8 && (bits > 0 ==> queue.bits == 0)
      modifies this
      ensures Valid()
      ensures r.Ok? <==> old(Cursor()) + bits <= |stream|
      ensures r.Err? ==> r.error == UnexpectedEof && pos == old(pos) && queue == old(queue)
      ensures r.Ok? ==> Cursor() == old(Cursor()) + bits
    {
      if bits > 0 {
        ghost var c0 := Cursor();
        ghost var p0 := pos;
        PrefixEmpty(stream, 8 * pos, Cursor(), []);
        var byte := ReadByte();
        if byte.Err? {
          return Err(byte.error);
        }
        Pow2Byte();
        queue := BitQueue(byte.value, 8);
        var dropped;
        dropped, queue := Pop(endian, queue, bits);
        LoadSplit(endian, input, stream, p0, c0, [], ToBits(endian, dropped, bits), QueueBits(endian, queue), pos, Cursor());
      }
      r := Ok(());
    }

    /** `skip`: discard the next `bits` bits; unlike `read` there is no width limit. */
    method Skip(bits: nat) returns (r: Result<(), IoError>)
      requires Valid()
      modifies this
      ensures Valid()
      ensures r.Ok? <==> old(Cursor()) + bits <= |stream|
      ensures r.Err? ==> r.error == UnexpectedEof
      ensures r.Ok? ==> Cursor() == old(Cursor()) + bits
    {
      ghost var c0 := Cursor();
      var toDrop := if queue.bits < bits then queue.bits else bits;
      if toDrop != 0 {
        var dropped;
        dropped, queue := Pop(endian, queue, toDrop);
        PrefixSplit(stream, c0, Cursor(), 8 * pos, ToBits(endian, dropped, toDrop), QueueBits(endian, queue));
      }
      var whole, last := Split8(bits - toDrop);
      var a := SkipAligned(whole);
      if whole > 0 {
        PrefixEmpty(stream, 8 * pos, Cursor(), QueueBits(endian, queue));
      }
      if a.Err? {
        return Err(a.error);
      }
      r := SkipUnaligned(last);
    }

    /** The loop of `read_bytes` off a byte boundary: each byte is read as an 8-bit field. */
    method ReadBytesUnaligned(buf: array<Byte>) returns (r: Result<(), IoError>)
      requires Valid()
      modifies this, buf
      ensures Valid()
      ensures r.Ok? <==> old(Cursor()) + 8 * buf.Length <= |stream|
      ensures r.Err? ==> r.error == UnexpectedEof
      ensures r.Ok? ==> Cursor() == old(Cursor()) + 8 * buf.Length
      ensures r.Ok? ==> stream[..Cursor()] == stream[..old(Cursor())] + BytesBits(endian, buf[..])
    {
      ghost var c0 := Cursor();
      var i := 0;
      while i < buf.Length
        invariant 0 <= i <= buf.Length && Valid()
        invariant Cursor() == c0 + 8 * i
        invariant stream[..Cursor()] == stream[..c0] + BytesBits(endian, buf[..i])
      {
        ghost var c := Cursor();
        ghost var done := buf[..i];
        var b := Read(8, 8);
        if b.Err? {
          return Err(b.error);
        }
        Pow2Byte();
        buf[i] := b.value;
        assert buf[..i + 1] == done + [b.value];
        BytesBitsSnoc(endian, done, b.value);
        PrefixChain(stream, c0, c, Cursor(), BytesBits(endian, done), ByteBits(endian, b.value));
        i := i + 1;
      }
      assert buf[..] == buf[..buf.Length];
      r := Ok(());
    }

    /** `read_bytes`: fill `buf` with the next `buf.Length` bytes. Aligned, the
        bytes are copied from the source as they are; otherwise each is read as an
        8-bit field. Either way `buf` holds the next `8 * buf.Length` bits. */
    method ReadBytes(buf: array<Byte>) returns (r: Result<(), IoError>)
      requires Valid()
      modifies this, buf
      ensures Valid()
      ensures r.Ok? <==> old(Cursor()) + 8 * buf.Length <= |stream|
      ensures r.Err? ==> r.error == UnexpectedEof
      ensures r.Ok? ==> Cursor() == old(Cursor()) + 8 * buf.Length
      ensures r.Ok? ==> stream[..Cursor()] == stream[..old(Cursor())] + BytesBits(endian, buf[..])
    {
      if ByteAligned() {
        ghost var p0 := pos;
        ghost var c0 := Cursor();
        r := ReadExact(buf);
        if r.Ok? {
          CopyBits(endian, input, stream, p0, buf[..], c0, Cursor());
          PrefixEmpty(stream, 8 * pos, Cursor(), QueueBits(endian, queue));
        }
      } else {
        r := ReadBytesUnaligned(buf);
      }
    }

    /** `read_aligned_unary`: skip whole bytes equal to `SaturatedByte(b)` (0xFF
        while counting ones, 0x00 while counting zeros), adding 8 for each, and
        load the first other byte into the drained queue. */
    method ReadAlignedUnary(b: bool) returns (r: Result<nat, IoError>)
      requires pos <= |input| && queue.bits == 0
      modifies this
      ensures pos <= |input|
      ensures r.Ok? <==> exists j | old(pos) <= j < |input| :: input[j] != SaturatedByte(b)
      ensures r.Err? ==> r.error == UnexpectedEof && queue == old(queue)
      ensures r.Err? ==> forall j | old(pos) <= j < |input| :: input[j] == SaturatedByte(b)
      ensures r.Ok? ==>
                old(pos) < pos && r.value == 8 * (pos - 1 - old(pos)) &&
                (forall j | old(pos) <= j < pos - 1 :: input[j] == SaturatedByte(b)) &&
                input[pos - 1] != SaturatedByte(b) && queue == BitQueue(input[pos - 1], 8)
    {
      var continueVal := SaturatedByte(b);
      var acc := 0;
      var byte := ReadByte();
      if byte.Err? {
        return Err(byte.error);
      }
      while byte.value == continueVal
        invariant old(pos) < pos <= |input| && acc == 8 * (pos - 1 - old(pos))
        invariant byte.Ok? && byte.value == input[pos - 1]
        invariant forall j | old(pos) <= j < pos - 1 :: input[j] == continueVal
        invariant queue == old(queue)
        decreases |input| - pos
      {
        acc := acc + 8;
        byte := ReadByte();
        if byte.Err? {
          return Err(byte.error);
        }
      }
      Pow2Byte();
      queue := BitQueue(byte.value, 8);
      r := Ok(acc);
    }

    /** The whole-byte path of `read_unary0/1`: a queue that is empty or holds
        only `b`s is counted whole, then whole bytes of `b`s add eight each, and the
        run ends in the first other byte, whose rest is left queued. */
    method ReadUnaryAcross(b: bool) returns (r: Result<nat, IoError>)
      requires Valid() && QueueBits(endian, queue) == Repeat(b, queue.bits)
      modifies this
      ensures Valid()
      ensures r.Ok? <==> exists i | old(Cursor()) <= i < |stream| :: stream[i] == !b
      ensures r.Err? ==> r.error == UnexpectedEof
      ensures r.Ok? ==> Cursor() == old(Cursor()) + r.value + 1
      ensures r.Ok? ==> stream[..Cursor()] == stream[..old(Cursor())] + (Repeat(b, r.value) + [!b])
    {
      ghost var c0 := Cursor();
      ghost var p0 := pos;
      var base := queue.bits;
      queue := EmptyQueue;
      var u := ReadAlignedUnary(b);
      if u.Err? {
        RunToEnd(endian, input, stream, p0, c0, base, b);
        PrefixEmpty(stream, 8 * pos, Cursor(), QueueBits(endian, queue));
        return Err(u.error);
      }
      ByteSaturated(endian, input[pos - 1], b);
      var n;
      n, queue := PopRun(endian, queue, b);
      var count := base + u.value + n;
      RunAcrossBytes(endian, input, stream, p0, pos - 1, c0, base, b, n, QueueBits(endian, queue), count, pos, Cursor());
      RunStop(stream, c0, Cursor(), count, b);
      r := Ok(count);
    }

    /** The shared body of `read_unary0` (`b` = true: count ones, stop at a zero)
        and `read_unary1` (`b` = false: count zeros, stop at a one). A queue that is
        empty or holds only `b`s is counted whole and the count goes on byte by
        byte; otherwise the run ends inside the queue. The result is the length of
        the run of `b`s at the cursor, and the `!b` that ends it is consumed. */
    method ReadUnary(b: bool) returns (r: Result<nat, IoError>)
      requires Valid()
      modifies this
      ensures Valid()
      ensures r.Ok? <==> exists i | old(Cursor()) <= i < |stream| :: stream[i] == !b
      ensures r.Err? ==> r.error == UnexpectedEof
      ensures r.Ok? ==> Cursor() == old(Cursor()) + r.value + 1
      ensures r.Ok? ==> stream[..Cursor()] == stream[..old(Cursor())] + (Repeat(b, r.value) + [!b])
    {
      var saturated := if b then AllOnes(queue) else AllZeros(queue);
      QueueSaturated(endian, queue, b);
      if queue.bits == 0 || saturated {
        r := ReadUnaryAcross(b);
      } else {
        ghost var c0 := Cursor();
        NotRepeatHasOther(QueueBits(endian, queue), b);
        var n;
        n, queue := PopRun(endian, queue, b);
        PrefixSplit(stream, c0, Cursor(), 8 * pos, Repeat(b, n) + [!b], QueueBits(endian, queue));
        RunStop(stream, c0, Cursor(), n, b);
        r := Ok(n);
      }
    }

    /** `read_unary0`: the number of 1 bits before the next 0 bit; the 0 is consumed. */
    method ReadUnary0() returns (r: Result<nat, IoError>)
      requires Valid()
      modifies this
      ensures Valid()
      ensures r.Ok? <==> exists i | old(Cursor()) <= i < |stream| :: !stream[i]
      ensures r.Err? ==> r.error == UnexpectedEof
      ensures r.Ok? ==> Cursor() == old(Cursor()) + r.value + 1
      ensures r.Ok? ==> stream[..Cursor()] == stream[..old(Cursor())] + (Repeat(true, r.value) + [false])
    {
      r := ReadUnary(true);
    }

    /** `read_unary1`: the number of 0 bits before the next 1 bit; the 1 is consumed. */
    method ReadUnary1() returns (r: Result<nat, IoError>)
      requires Valid()
      modifies this
      ensures Valid()
      ensures r.Ok? <==> exists i | old(Cursor()) <= i < |stream| :: stream[i]
      ensures r.Err? ==> r.error == UnexpectedEof
      ensures r.Ok? ==> Cursor() == old(Cursor()) + r.value + 1
      ensures r.Ok? ==> stream[..Cursor()] == stream[..old(Cursor())] + (Repeat(false, r.value) + [true])
    {
      r := ReadUnary(false);
    }

    /** `read_signed` of `BitReader<BigEndian>`: a two's-complement field of
        `bits` bits into a signed type of `width` bits, read as the sign bit
        followed by `bits - 1` magnitude bits. */
    method ReadSignedBig(width: nat, bits: nat) returns (r: Result<int, IoError>)
      requires Valid() && endian == BigEndian && IsWidth(width) && bits >= 1
      modifies this
      ensures Valid()
      ensures bits > width ==> r == Err(InvalidInput) && pos == old(pos) && queue == old(queue)
      ensures bits <= width ==> (r.Ok? <==> old(Cursor()) + bits <= |stream|)
      ensures bits <= width && r.Err? ==> r.error == UnexpectedEof
      ensures r.Ok? ==> Cursor() == old(Cursor()) + bits && SignedFits(r.value, bits)
      ensures r.Ok? ==> stream[..Cursor()] == stream[..old(Cursor())] + SignedBits(endian, r.value, bits)
    {
      if bits > width {
        return Err(InvalidInput);
      }
      ghost var c0 := Cursor();
      var negative := ReadBit();
      if negative.Err? {
        return Err(negative.error);
      }
      ghost var c1 := Cursor();
      var magnitude := Read(width, bits - 1);
      if magnitude.Err? {
        return Err(magnitude.error);
      }
      SignedFromParts(endian, negative.value, magnitude.value, bits);
      PrefixChain(stream, c0, c1, Cursor(), [negative.value], ToBits(endian, magnitude.value, bits - 1));
      r := Ok(if negative.value then magnitude.value - Pow2(bits - 1) else magnitude.value);
    }

    /** `read_signed` of `BitReader<LittleEndian>`: a two's-complement field of
        `bits` bits into a signed type of `width` bits, read as `bits - 1`
        magnitude bits followed by the sign bit. */
    method ReadSignedLittle(width: nat, bits: nat) returns (r: Result<int, IoError>)
      requires Valid() && endian == LittleEndian && IsWidth(width) && bits >= 1
      modifies this
      ensures Valid()
      ensures bits > width ==> r == Err(InvalidInput) && pos == old(pos) && queue == old(queue)
      ensures bits <= width ==> (r.Ok? <==> old(Cursor()) + bits <= |stream|)
      ensures bits <= width && r.Err? ==> r.error == UnexpectedEof
      ensures r.Ok? ==> Cursor() == old(Cursor()) + bits && SignedFits(r.value, bits)
      ensures r.Ok? ==> stream[..Cursor()] == stream[..old(Cursor())] + SignedBits(endian, r.value, bits)
    {
      if bits > width {
        return Err(InvalidInput);
      }
      ghost var c0 := Cursor();
      var magnitude := Read(width, bits - 1);
      if magnitude.Err? {
        return Err(magnitude.error);
      }
      ghost var c1 := Cursor();
      var negative := ReadBit();
      if negative.Err? {
        return Err(negative.error);
      }
      SignedFromParts(endian, negative.value, magnitude.value, bits);
      PrefixChain(stream, c0, c1, Cursor(), ToBits(endian, magnitude.value, bits - 1), [negative.value]);
      r := Ok(if negative.value then magnitude.value - Pow2(bits - 1) else magnitude.value);
    }

    /** `byte_aligned`: true when nothing is cached, which is exactly when the
        cursor is on a byte boundary. */
    function ByteAligned(): (r: bool)
      reads this
      requires Valid()
      ensures r <==> Cursor() % 8 == 0
    {
      CursorInByte(pos, queue.bits);
      queue.bits == 0
    }

    /** `byte_align`: drop the cached partial byte, which moves the cursor to
        the next byte boundary (and not at all when it is on one). */
    method ByteAlign()
      requires Valid()
      modifies this`queue
      ensures Valid() && ByteAligned()
      ensures Cursor() == old(Cursor()) + (8 - old(Cursor()) % 8) % 8
    {
      CursorInByte(pos, queue.bits);
      queue := EmptyQueue;
      PrefixEmpty(stream, 8 * pos, Cursor(), QueueBits(endian, queue));
    }

    /** `into_unread`: the cached partial byte as (bit count, value): the bits
        from the cursor up to the next byte boundary. */
    function IntoUnread(): (r: (nat, nat))
      reads this
      requires Valid()
      ensures r.0 == (8 - Cursor() % 8) % 8 && r.1 < Pow2(r.0)
      ensures Cursor() + r.0 <= |stream|
      ensures stream[..Cursor() + r.0] == stream[..Cursor()] + ToBits(endian, r.1, r.0)
    {
      CursorInByte(pos, queue.bits);
      (queue.bits, queue.value)
    }
  }

  /** What a `read` that reaches past the queue takes from the source: with
      `len` bits queued at byte `pos0` before and `len1` at byte `pos1` after, a
      cursor advanced by `bits > len` means `(bits - len) / 8` whole bytes, one
      more for a partial last byte, and the unread rest of that byte left queued. */
  lemma ReadConsumes(pos0: nat, len: nat, bits: nat, pos1: nat, len1: nat)
    requires len < 8 && len <= 8 * pos0 && len1 < 8 && len1 <= 8 * pos1 && len < bits
    requires 8 * pos1 - len1 == 8 * pos0 - len + bits
    ensures pos1 == pos0 + (bits - len + 7) / 8
    ensures len1 == (8 - (bits - len) % 8) % 8
  {
    var rest := bits - len;
    if len1 == 0 {
      assert rest == 8 * (pos1 - pos0);
      DivModUnique(pos1 - pos0, 0, 8);
      DivModUnique(pos1 - pos0, 7, 8);
    } else {
      assert rest == 8 * (pos1 - pos0 - 1) + (8 - len1);
      DivModUnique(pos1 - pos0 - 1, 8 - len1, 8);
      DivModUnique(pos1 - pos0, 7 - len1, 8);
    }
  }
}
