/** The bit writer of src/write.rs.

    `BitWriter` writes fields of any number of bits to a byte sink. The sink
    is the output byte sequence (a `Vec<u8>`, which never fails), and `queue` is
    the partial byte not yet written (the crate's `BitQueue<E, u8>`). The
    abstract state is `written`, every bit written so far in stream order:
    every write appends its field to it, and the sink always holds the whole
    bytes of `written` while the queue holds the rest, under eight bits. */
module Write {
  import opened Bits
  import opened Results
  import opened Huffman


  /** Moving the seam between two parts of a concatenation. */
  lemma Regroup<T>(a: seq<T>, b: seq<T>, c: seq<T>, bc: seq<T>)
    requires bc == b + c
    ensures (a + b) + c == a + bc
  {
  }

  /** A queue of eight bits flushed as one byte leaves the bits where they were:
      the byte's bits move from the end of the queue to the end of the sink. */
  lemma Flush(e: Endianness, out: seq<Byte>, q: BitQueue, byte: Byte, q2: BitQueue)
    requires q.Valid() && q2.Valid() && q2.bits == 0
    requires QueueBits(e, q) == ByteBits(e, byte) + QueueBits(e, q2)
    ensures BytesBits(e, out) + QueueBits(e, q) == BytesBits(e, out + [byte]) + QueueBits(e, q2)
  {
    BytesBitsSnoc(e, out, byte);
    AppendEmpty(ByteBits(e, byte), QueueBits(e, q2));
    AppendEmpty(BytesBits(e, out + [byte]), QueueBits(e, q2));
  }

  /** Whole bytes appended to a sink whose queue is empty extend its bits. */
  lemma FlushBytes(e: Endianness, out: seq<Byte>, q: BitQueue, chunk: seq<Byte>)
    requires q.Valid() && q.bits == 0
    ensures BytesBits(e, out) + QueueBits(e, q) + BytesBits(e, chunk) == BytesBits(e, out + chunk) + QueueBits(e, q)
  {
    BytesBitsAppend(e, out, chunk);
    AppendEmpty(BytesBits(e, out), QueueBits(e, q));
    AppendEmpty(BytesBits(e, out + chunk), QueueBits(e, q));
  }

  /** An all-ones field of `n` bits is a run of `n` ones, and an all-zeros field
      a run of `n` zeros. */
  lemma RepeatField(e: Endianness, b: bool, n: nat, mask: nat)
    requires mask == if b then Pow2(n) - 1 else 0
    ensures mask < Pow2(n) && ToBits(e, mask, n) == Repeat(b, n)
  {
    RepeatValue(e, b, n);
    ToBitsFromBits(e, Repeat(b, n));
  }

  /** Popping one more byte off the front of a queue moves its bits to the end
      of the bytes popped so far. */
  lemma PopByte(e: Endianness, whole: seq<bool>, done: seq<Byte>, byte: Byte, rest0: seq<bool>, rest: seq<bool>)
    requires whole == BytesBits(e, done) + rest0
    requires rest0 == ByteBits(e, byte) + rest
    ensures whole == BytesBits(e, done + [byte]) + rest
  {
    BytesBitsSnoc(e, done, byte);
  }

  /** No bytes contribute no bits. */
  lemma NoBytes(e: Endianness, rest: seq<bool>)
    ensures rest == BytesBits(e, []) + rest
  {
  }

  /** A signed field goes out as its sign bit and its magnitude field, in the
      order the bit order puts them. */
  lemma SignedAppend(e: Endianness, w0: seq<bool>, value: int, bits: nat, m: nat)
    requires SignedFits(value, bits) && m == if value < 0 then value + Pow2(bits - 1) else value
    ensures e == BigEndian ==> (w0 + [value < 0]) + ToBits(e, m, bits - 1) == w0 + SignedBits(e, value, bits)
    ensures e == LittleEndian ==> (w0 + ToBits(e, m, bits - 1)) + [value < 0] == w0 + SignedBits(e, value, bits)
  {
    SignedBitsSplit(e, value, bits);
    if e == BigEndian {
      Regroup(w0, [value < 0], ToBits(e, m, bits - 1), SignedBits(e, value, bits));
    } else {
      Regroup(w0, ToBits(e, m, bits - 1), [value < 0], SignedBits(e, value, bits));
    }
  }

  /** `U::one() << k` in a signed type of `width` bits: shifting the one into
      the sign position gives the type's minimum, `-2^(width-1)`. */
  function SignedOneShl(width: nat, k: nat): int
    requires k < width
  {
    if k == width - 1 then -(Pow2(k) as int) else Pow2(k)
  }

  /** Whether `write_signed`, as written, returns `Ok` (with a sink that never
      fails): only the width is checked, then the magnitude `as_unsigned(bits)`
      of a negative value, or the value itself, goes through the range check of
      `write::<S>(bits - 1, _)`, which compares it with `S::one() << (bits - 1)`. */
  predicate SignedAcceptedAsWritten(width: nat, bits: nat, value: int)
    requires IsWidth(width) && bits >= 1
  {
    var m := if value < 0 then value + Pow2(bits - 1) else value;
    bits <= width && !(bits - 1 < width && m >= SignedOneShl(width, bits - 1))
  }

  /** As written, a field narrower than its type takes every value below
      `2^(bits-1)`, however negative: there is no lower bound. */
  lemma SignedAcceptedAsWrittenIff(width: nat, bits: nat, value: int)
    requires IsWidth(width) && 1 <= bits < width
    requires -(Pow2(width - 1) as int) <= value < Pow2(width - 1)
    ensures SignedAcceptedAsWritten(width, bits, value) <==> value < Pow2(bits - 1)
  {
  }

  /** As written, -100 is accepted as a 4-bit field of an `i8`, although a
      4-bit two's-complement field only holds -8 through 7. */
  lemma SignedAcceptsOutOfRange()
    ensures IsWidth(8) && -128 <= -100 < 128
    ensures SignedAcceptedAsWritten(8, 4, -100) && !SignedFits(-100, 4)
  {
    assert Pow2(3) == 8;
  }

  /** As written, a field as wide as its type is always refused, although
      every value of the type fits in it: `S::one() << (bits - 1)` is then the
      type's minimum, which every magnitude reaches. */
  lemma SignedRefusesFullWidth(width: nat, value: int)
    requires IsWidth(width) && -(Pow2(width - 1) as int) <= value < Pow2(width - 1)
    ensures SignedFits(value, width) && !SignedAcceptedAsWritten(width, width, value)
  {
  }

  class BitWriter {
    const endian: Endianness
    var output: seq<Byte>
    var queue: BitQueue
    /** Every bit written so far, in stream order. */
    ghost var written: seq<bool>

    /** The sink holds the whole bytes written and the queue the partial byte after them. */
    ghost predicate Valid()
      reads this
    {
      queue.Valid() && queue.bits < 8 &&
      written == BytesBits(endian, output) + QueueBits(endian, queue)
    }

    /** `BitWriter::new` */
    constructor (endian: Endianness)
      ensures Valid() && this.endian == endian
      ensures output == [] && written == []
    {
      this.endian := endian;
      output := [];
      queue := EmptyQueue;
      written := [];
      new;
      AppendEmpty(BytesBits(endian, output), QueueBits(endian, queue));
    }

    /** `write_bit`: append one bit, and flush the queue as a byte when it fills. */
    method WriteBit(bit: bool) returns (r: Result<(), IoError>)
      requires Valid()
      modifies this
      ensures Valid() && r.Ok?
      ensures written == old(written) + [bit]
      ensures queue.bits == (old(queue.bits) + 1) % 8
      ensures old(queue.bits) < 7 ==> output == old(output)
      ensures old(queue.bits) == 7 ==> |output| == |old(output)| + 1
    {
      ghost var w0 := written;
      ghost var q0 := queue;
      ghost var out0 := output;
      var v: nat := if bit then 1 else 0;
      queue := Push(endian, queue, 1, v);
      ToBitsSingle(endian, v);
      written := w0 + [bit];
      Regroup(BytesBits(endian, out0), QueueBits(endian, q0), [bit], QueueBits(endian, queue));
      if queue.bits == 8 {
        ghost var q1 := queue;
        var byte;
        byte, queue := Pop(endian, queue, 8);
        Pow2Byte();
        output := output + [byte];
        Flush(endian, out0, q1, byte, queue);
      }
      r := Ok(());
    }

    /** `write_unaligned`: with bits queued, move bits from the front of `acc` into
        the queue until it holds a byte or `acc` runs out, and flush a full
        queue. `moved` is what left `acc`. */
    method WriteUnaligned(acc: BitQueue) returns (a: BitQueue, ghost moved: seq<bool>)
      requires Valid() && acc.Valid()
      modifies this
      ensures Valid() && a.Valid()
      ensures written == old(written) + moved
      ensures QueueBits(endian, acc) == moved + QueueBits(endian, a)
      ensures old(queue.bits) == 0 ==> a == acc && queue == old(queue) && output == old(output)
      ensures old(queue.bits) > 0 && old(queue.bits) + acc.bits >= 8 ==>
                queue.bits == 0 && a.bits == acc.bits - (8 - old(queue.bits)) && |output| == |old(output)| + 1
    {
      if queue.bits == 0 {
        a, moved := acc, [];
        AppendEmpty(written, moved);
        return;
      }
      ghost var w0 := written;
      ghost var q0 := queue;
      ghost var out0 := output;
      var transfer := if 8 - queue.bits < acc.bits then 8 - queue.bits else acc.bits;
      var v;
      v, a := Pop(endian, acc, transfer);
      queue := Push(endian, queue, transfer, v);
      moved := ToBits(endian, v, transfer);
      written := w0 + moved;
      Regroup(BytesBits(endian, out0), QueueBits(endian, q0), moved, QueueBits(endian, queue));
      if queue.bits == 8 {
        ghost var q1 := queue;
        var byte;
        byte, queue := Pop(endian, queue, 8);
        Pow2Byte();
        output := output + [byte];
        Flush(endian, out0, q1, byte, queue);
      }
    }

    /** The loop of `write_aligned`: pop `count` whole bytes from the front of
        `acc` into a buffer of eight. */
    static method PopBytes(endian: Endianness, acc: BitQueue, count: nat) returns (a: BitQueue, chunk: seq<Byte>)
      requires acc.Valid() && count <= 8 && 8 * count <= acc.bits
      ensures a.Valid() && a.bits == acc.bits - 8 * count && |chunk| == count
      ensures QueueBits(endian, acc) == BytesBits(endian, chunk) + QueueBits(endian, a)
    {
      var buf := new Byte[8];
      a := acc;
      ghost var popped: seq<Byte> := [];
      NoBytes(endian, QueueBits(endian, acc));
      var i := 0;
      while i < count
        invariant 0 <= i <= count && a.Valid() && a.bits == acc.bits - 8 * i
        invariant |popped| == i && forall j | 0 <= j < i :: buf[j] == popped[j]
        invariant QueueBits(endian, acc) == BytesBits(endian, popped) + QueueBits(endian, a)
      {
        ghost var a0 := a;
        var byte;
        byte, a := Pop(endian, a, 8);
        Pow2Byte();
        buf[i] := byte;
        PopByte(endian, QueueBits(endian, acc), popped, byte, QueueBits(endian, a0), QueueBits(endian, a));
        popped := popped + [byte];
        i := i + 1;
      }
      chunk := buf[..count];
      assert chunk == popped;
    }

    /** `write_aligned`: with nothing queued, pop the whole bytes at the front of
        `acc` (at most eight, one 64-bit value) and write them to the sink in one
        go. `moved` is what left `acc`. */
    method WriteAligned(acc: BitQueue) returns (a: BitQueue, ghost moved: seq<bool>)
      requires Valid() && queue.bits == 0 && acc.Valid() && acc.bits / 8 <= 8
      modifies this
      ensures Valid() && queue == old(queue) && a.Valid() && a.bits == acc.bits % 8
      ensures |output| == |old(output)| + acc.bits / 8
      ensures written == old(written) + moved
      ensures QueueBits(endian, acc) == moved + QueueBits(endian, a)
    {
      var toWrite := acc.bits / 8;
      if toWrite == 0 {
        a, moved := acc, [];
        AppendEmpty(written, moved);
        return;
      }
      var chunk;
      a, chunk := PopBytes(endian, acc, toWrite);
      DivModUnique(toWrite, a.bits, 8);
      ghost var out0 := output;
      output := output + chunk;
      moved := BytesBits(endian, chunk);
      written := written + moved;
      FlushBytes(endian, out0, queue, chunk);
    }

    /** `write`: an unsigned field of `bits` bits from an integer type of `width`
        bits. A field wider than the type, or a value that does not fit in the
        field, is refused and nothing is written; otherwise the field is appended
        to the stream, and a field that fits in the queue's free space only goes
        to the queue. */
    method Write(width: nat, bits: nat, value: nat) returns (r: Result<(), IoError>)
      requires Valid() && IsWidth(width) && value < Pow2(width)
      modifies this
      ensures Valid()
      ensures r.Err? <==> bits > width || (bits < width && value >= Pow2(bits))
      ensures r.Err? ==> r.error == InvalidInput && output == old(output) && queue == old(queue) && written == old(written)
      ensures r.Ok? ==> value < Pow2(bits) && written == old(written) + ToBits(endian, value, bits)
      ensures r.Ok? && bits < 8 - old(queue.bits) ==> output == old(output)
    {
      if bits > width {
        return Err(InvalidInput);
      } else if bits < width && value >= Pow2(bits) {
        return Err(InvalidInput);
      }
      if bits < 8 - queue.bits {
        ghost var q0 := queue;
        queue := Push(endian, queue, bits, value);
        written := old(written) + ToBits(endian, value, bits);
        Regroup(BytesBits(endian, output), QueueBits(endian, q0), ToBits(endian, value, bits), QueueBits(endian, queue));
        r := Ok(());
      } else {
        WriteAcross(bits, value);
        r := Ok(());
      }
    }

    /** The part of `write` that fills the queue: top up the queue and flush it,
        write the whole bytes that follow, and queue what is left. */
    method WriteAcross(bits: nat, value: nat)
      requires Valid() && 8 - queue.bits <= bits <= 64 && value < Pow2(bits)
      modifies this
      ensures Valid()
      ensures written == old(written) + ToBits(endian, value, bits)
    {
      ghost var w0 := written;
      var acc := BitQueue(value, bits);
      var a1, m1 := WriteUnaligned(acc);
      var a2, m2 := WriteAligned(a1);
      ghost var w2 := written;
      ghost var q2 := queue;
      queue := Push(endian, queue, a2.bits, a2.value);
      written := w2 + QueueBits(endian, a2);
      AppendEmpty(BytesBits(endian, output), QueueBits(endian, q2));
      assert QueueBits(endian, queue) == QueueBits(endian, a2);
      Regroup(w0 + m1, m2, QueueBits(endian, a2), QueueBits(endian, a1));
      Regroup(w0, m1, QueueBits(endian, a1), QueueBits(endian, acc));
    }

    /** `write_bytes`: append whole bytes. Aligned, they go to the sink as they
        are; otherwise each is written as an 8-bit field. */
    method WriteBytes(buf: seq<Byte>) returns (r: Result<(), IoError>)
      requires Valid()
      modifies this
      ensures Valid() && r.Ok?
      ensures written == old(written) + BytesBits(endian, buf)
      ensures old(queue.bits) == 0 ==> output == old(output) + buf
    {
      if ByteAligned() {
        ghost var out0 := output;
        output := output + buf;
        written := written + BytesBits(endian, buf);
        FlushBytes(endian, out0, queue, buf);
      } else {
        ghost var w0 := written;
        NoBytes(endian, []);
        AppendEmpty(w0, []);
        var i := 0;
        while i < |buf|
          invariant 0 <= i <= |buf| && Valid()
          invariant written == w0 + BytesBits(endian, buf[..i])
        {
          Pow2Byte();
          var _ := Write(8, 8, buf[i]);
          assert buf[..i + 1] == buf[..i] + [buf[i]];
          BytesBitsSnoc(endian, buf[..i], buf[i]);
          Regroup(w0, BytesBits(endian, buf[..i]), ByteBits(endian, buf[i]), BytesBits(endian, buf[..i + 1]));
          i := i + 1;
        }
        assert buf[..i] == buf;
      }
      r := Ok(());
    }

    /** The literal masks of `write_unary0/1`: `n` one bits (`b`) or `n` zero
        bits, as a number. */
    static method RunMask(e: Endianness, b: bool, n: nat) returns (mask: nat)
      ensures mask < Pow2(n) && ToBits(e, mask, n) == Repeat(b, n)
    {
      mask := if b then Pow2(n) - 1 else 0;
      RepeatField(e, b, n, mask);
    }

    /** A run of `n <= 64` copies of `b` written as one field of width `width`
        (the all-ones or all-zeros value), followed by the stop bit `!b`. */
    method WriteRun(width: nat, n: nat, b: bool)
      requires Valid() && IsWidth(width) && 1 <= n <= width
      modifies this
      ensures Valid()
      ensures written == old(written) + (Repeat(b, n) + [!b])
    {
      ghost var w0 := written;
      var mask := RunMask(endian, b, n);
      Pow2Monotone(n, width);
      var _ := Write(width, n, mask);
      var _ := WriteBit(!b);
      Regroup(w0, Repeat(b, n), [!b], Repeat(b, n) + [!b]);
    }

    /** One 64-bit field of all `b`s (`u64::MAX` or `0u64`). */
    method WriteWord(b: bool)
      requires Valid()
      modifies this
      ensures Valid()
      ensures written == old(written) + Repeat(b, 64)
    {
      var mask := RunMask(endian, b, 64);
      var _ := Write(64, 64, mask);
    }

    /** The loop of `write_unary0/1` for runs longer than 64: whole 64-bit fields
        of `b` until at most 64 are left; `left` is what is left. */
    method WriteLongRun(n: nat, b: bool) returns (left: nat)
      requires Valid() && n > 64
      modifies this
      ensures Valid() && 1 <= left <= 64 && left <= n
      ensures written == old(written) + Repeat(b, n - left)
    {
      ghost var w0 := written;
      AppendEmpty(w0, Repeat(b, 0));
      left := n;
      while left > 64
        invariant Valid() && 1 <= left <= n
        invariant written == w0 + Repeat(b, n - left)
      {
        WriteWord(b);
        RepeatAppend(b, n - left, 64);
        Regroup(w0, Repeat(b, n - left), Repeat(b, 64), Repeat(b, n - left + 64));
        left := left - 64;
      }
    }

    /** `write_huffman`: the symbol's code, as the field its table entry
        holds for the writer's bit order. */
    method WriteHuffman<T>(tree: WriteTree<T>, symbol: T) returns (r: Result<(), IoError>)
      requires Valid() && ValidTable(tree) && HasSymbol(tree, symbol)
      modifies this
      ensures Valid() && r.Ok?
      ensures Get(tree, endian, symbol).1 < Pow2(Get(tree, endian, symbol).0)
      ensures written == old(written) + ToBits(endian, Get(tree, endian, symbol).1, Get(tree, endian, symbol).0)
    {
      var (bits, value) := Get(tree, endian, symbol);
      Pow2Monotone(bits, 64);
      r := Write(64, bits, value);
    }

    /** `write_unary0`: `value` one bits and a zero bit. Runs of up to 64 go out
        as one field of a `u32` or `u64` mask; longer runs first as 64-bit fields. */
    method WriteUnary0(value: nat) returns (r: Result<(), IoError>)
      requires Valid() && value < 0x1_0000_0000
      modifies this
      ensures Valid() && r.Ok?
      ensures written == old(written) + (Repeat(true, value) + [false])
      decreases value
    {
      if value == 0 {
        r := WriteBit(false);
        assert Repeat(true, 0) + [false] == [false];
        return;
      } else if value <= 32 {
        WriteRun(32, value, true);
      } else if value <= 64 {
        WriteRun(64, value, true);
      } else {
        ghost var w0 := written;
        var left := WriteLongRun(value, true);
        r := WriteUnary0(left);
        RunJoin(true, value - left, left, []);
        AppendEmpty(Repeat(true, value - left) + ([] + [false]), []);
        assert Repeat(true, left) + [false] + [] == Repeat(true, left) + [false];
        Regroup(w0, Repeat(true, value - left), Repeat(true, left) + [false], Repeat(true, value) + [false]);
      }
      r := Ok(());
    }

    /** `write_unary1`: `value` zero bits and a one bit, chunked like `write_unary0`. */
    method WriteUnary1(value: nat) returns (r: Result<(), IoError>)
      requires Valid() && value < 0x1_0000_0000
      modifies this
      ensures Valid() && r.Ok?
      ensures written == old(written) + (Repeat(false, value) + [true])
      decreases value
    {
      if value == 0 {
        r := WriteBit(true);
        assert Repeat(false, 0) + [true] == [true];
        return;
      } else if value <= 32 {
        WriteRun(32, value, false);
      } else if value <= 64 {
        WriteRun(64, value, false);
      } else {
        ghost var w0 := written;
        var left := WriteLongRun(value, false);
        r := WriteUnary1(left);
        RunJoin(false, value - left, left, []);
        AppendEmpty(Repeat(false, value - left) + ([] + [true]), []);
        assert Repeat(false, left) + [true] + [] == Repeat(false, left) + [true];
        Regroup(w0, Repeat(false, value - left), Repeat(false, left) + [true], Repeat(false, value) + [true]);
      }
      r := Ok(());
    }

    /** The magnitude field of `write_signed`: `n` bits from a type of `width`
        bits, narrower than the type, of a value that fits. */
    method WriteMagnitude(width: nat, n: nat, m: nat)
      requires Valid() && IsWidth(width) && n < width && m < Pow2(n)
      modifies this
      ensures Valid()
      ensures written == old(written) + ToBits(endian, m, n)
    {
      Pow2Monotone(n, width);
      var _ := Write(width, n, m);
    }

    /** `write_signed` of `BitWriter<BigEndian>`, with the range check the source
        leaves out: a two's-complement field of `bits` bits from a signed type of
        `width` bits, written as the sign bit followed by `bits - 1` magnitude
        bits. A field wider than the type, or a value outside the field's range,
        is refused before anything is written. */
    method WriteSignedBig(width: nat, bits: nat, value: int) returns (r: Result<(), IoError>)
      requires Valid() && endian == BigEndian && IsWidth(width) && bits >= 1
      requires -(Pow2(width - 1) as int) <= value < Pow2(width - 1)
      modifies this
      ensures Valid()
      ensures r.Ok? <==> bits <= width && SignedFits(value, bits)
      ensures r.Err? ==> r.error == InvalidInput && output == old(output) && queue == old(queue) && written == old(written)
      ensures r.Ok? ==> written == old(written) + SignedBits(endian, value, bits)
    {
      if bits > width || !SignedFits(value, bits) {
        return Err(InvalidInput);
      }
      ghost var w0 := written;
      var m: nat := if value < 0 then value + Pow2(bits - 1) else value;
      var _ := WriteBit(value < 0);
      WriteMagnitude(width, bits - 1, m);
      SignedAppend(endian, w0, value, bits, m);
      r := Ok(());
    }

    /** `write_signed` of `BitWriter<LittleEndian>`, with the range check the
        source leaves out: `bits - 1` magnitude bits followed by the sign bit. */
    method WriteSignedLittle(width: nat, bits: nat, value: int) returns (r: Result<(), IoError>)
      requires Valid() && endian == LittleEndian && IsWidth(width) && bits >= 1
      requires -(Pow2(width - 1) as int) <= value < Pow2(width - 1)
      modifies this
      ensures Valid()
      ensures r.Ok? <==> bits <= width && SignedFits(value, bits)
      ensures r.Err? ==> r.error == InvalidInput && output == old(output) && queue == old(queue) && written == old(written)
      ensures r.Ok? ==> written == old(written) + SignedBits(endian, value, bits)
    {
      if bits > width || !SignedFits(value, bits) {
        return Err(InvalidInput);
      }
      ghost var w0 := written;
      var m: nat := if value < 0 then value + Pow2(bits - 1) else value;
      WriteMagnitude(width, bits - 1, m);
      var _ := WriteBit(value < 0);
      SignedAppend(endian, w0, value, bits, m);
      r := Ok(());
    }

    /** `byte_aligned`: nothing is queued, which is exactly when a whole number
        of bytes has been written. */
    function ByteAligned(): (r: bool)
      reads this
      requires Valid()
      ensures r <==> |written| % 8 == 0
    {
      DivModUnique(|output|, queue.bits, 8);
      queue.bits == 0
    }

    /** One more zero bit of padding after `n` of them. */
    method PadBit(ghost w0: seq<bool>, ghost n: nat)
      requires Valid() && written == w0 + Repeat(false, n)
      modifies this
      ensures Valid() && queue.bits == if old(queue.bits) == 7 then 0 else old(queue.bits) + 1
      ensures written == w0 + Repeat(false, n + 1)
    {
      var _ := WriteBit(false);
      RepeatAppend(false, n, 1);
      Regroup(w0, Repeat(false, n), [false], Repeat(false, n + 1));
    }

    /** `byte_align`: write zero bits until the queue is flushed; nothing when
        already aligned. */
    method ByteAlign() returns (r: Result<(), IoError>)
      requires Valid()
      modifies this
      ensures Valid() && r.Ok? && queue.bits == 0
      ensures written == old(written) + Repeat(false, (8 - old(queue.bits)) % 8)
    {
      ghost var w0 := written;
      ghost var q0 := queue.bits;
      ghost var n: nat := 0;
      AppendEmpty(w0, Repeat(false, 0));
      while !ByteAligned()
        invariant Valid() && q0 + n <= 8 && (q0 == 0 ==> n == 0)
        invariant queue.bits == if q0 + n == 8 then 0 else q0 + n
        invariant written == w0 + Repeat(false, n)
        decreases 8 - n
      {
        PadBit(w0, n);
        n := n + 1;
      }
      assert n == (8 - q0) % 8;
      r := Ok(());
    }

    /** `into_unwritten`: the queued partial byte as (bit count, value): the bits
        written after the last whole byte. */
    function IntoUnwritten(): (r: (nat, nat))
      reads this
      requires Valid()
      ensures r.0 == |written| % 8 && r.1 < Pow2(r.0)
      ensures written == BytesBits(endian, output) + ToBits(endian, r.1, r.0)
    {
      DivModUnique(|output|, queue.bits, 8);
      (queue.bits, queue.value)
    }
  }
}
