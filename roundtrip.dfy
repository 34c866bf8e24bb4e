/** What a `BitWriter` writes, a `BitReader` over the written bytes reads
    back: fields, signed fields and unary runs, in either bit order, once the
    writer is byte-aligned; and a symbol's code in the write table is a code
    that leads to that symbol in the read tree. */
module RoundTrip {
  import opened Bits
  import opened Results
  import opened Huffman
  import opened Read
  import opened Write

  /** A writer with nothing queued has written exactly the bits of its
      output bytes. */
  lemma Flushed(e: Endianness, output: seq<Byte>, q: BitQueue, written: seq<bool>)
    requires q.Valid() && q.bits == 0 && written == BytesBits(e, output) + QueueBits(e, q)
    ensures BytesBits(e, output) == written
  {
    AppendEmpty(BytesBits(e, output), QueueBits(e, q));
  }

  /** A field read from the front of a stream that starts with the field of
      `v` is `v`. */
  lemma FieldBack(e: Endianness, s: seq<bool>, n: nat, v: nat, rest: seq<bool>, u: nat)
    requires v < Pow2(n) && u < Pow2(n)
    requires s == ToBits(e, v, n) + rest && s[..n] == s[..0] + ToBits(e, u, n)
    ensures u == v
  {
    assert s[..n] == ToBits(e, v, n);
    assert s[..0] + ToBits(e, u, n) == ToBits(e, u, n);
  }

  /** `byte_align`, then the writer's bytes: the bits written so far and
      the fewest zero bits that reach a byte boundary. */
  method Finish(w: BitWriter) returns (bytes: seq<Byte>, ghost pad: seq<bool>)
    requires w.Valid()
    modifies w
    ensures BytesBits(w.endian, bytes) == old(w.written) + pad
    ensures pad == Repeat(false, (8 - |old(w.written)| % 8) % 8)
  {
    ghost var queued := w.queue.bits;
    assert queued == w.IntoUnwritten().0;
    var _ := w.ByteAlign();
    Flushed(w.endian, w.output, w.queue, w.written);
    bytes := w.output;
    pad := Repeat(false, (8 - queued) % 8);
  }

  /** `write` of a field into a new writer, then `byte_align`: the bytes
      written hold the field followed by fewer than 8 zero bits. */
  method WriteField(e: Endianness, width: nat, bits: nat, value: nat) returns (bytes: seq<Byte>, ghost pad: seq<bool>)
    requires IsWidth(width) && bits <= width && value < Pow2(bits)
    ensures BytesBits(e, bytes) == ToBits(e, value, bits) + pad
    ensures pad == Repeat(false, (8 - bits % 8) % 8)
  {
    var w := new BitWriter(e);
    Pow2Monotone(bits, width);
    var _ := w.Write(width, bits, value);
    bytes, pad := Finish(w);
  }

  /** `read` of a field from a new reader over `bytes`: the field at the
      front of the bytes' bits, when there are enough of them. */
  method ReadField(e: Endianness, width: nat, bits: nat, bytes: seq<Byte>) returns (r: Result<nat, IoError>)
    requires IsWidth(width) && bits <= width
    ensures r.Ok? <==> bits <= 8 * |bytes|
    ensures r.Ok? ==> r.value < Pow2(bits) && BytesBits(e, bytes)[..bits] == ToBits(e, r.value, bits)
  {
    var rd := new BitReader(e, bytes);
    r := rd.Read(width, bits);
    if r.Ok? {
      assert rd.stream[..0] + ToBits(e, r.value, bits) == ToBits(e, r.value, bits);
    }
  }

  /** `write` then `byte_align`, then `read` of the same width from the
      written bytes, gives back the value. */
  method FieldRoundTrip(e: Endianness, width: nat, bits: nat, value: nat) returns (r: Result<nat, IoError>)
    requires IsWidth(width) && bits <= width && value < Pow2(bits)
    ensures r == Ok(value)
  {
    var bytes, pad := WriteField(e, width, bits, value);
    r := ReadField(e, width, bits, bytes);
    assert BytesBits(e, bytes)[..bits] == ToBits(e, value, bits);
  }

  /** `write_signed` of a field into a new writer, then `byte_align`: the
      bytes written hold the signed field followed by fewer than 8 zero bits. */
  method WriteSignedField(e: Endianness, width: nat, bits: nat, value: int) returns (bytes: seq<Byte>, ghost pad: seq<bool>)
    requires IsWidth(width) && 1 <= bits <= width && SignedFits(value, bits)
    ensures BytesBits(e, bytes) == SignedBits(e, value, bits) + pad
    ensures pad == Repeat(false, (8 - bits % 8) % 8)
  {
    Pow2Monotone(bits - 1, width - 1);
    var w := new BitWriter(e);
    var r;
    if e == BigEndian {
      r := w.WriteSignedBig(width, bits, value);
    } else {
      r := w.WriteSignedLittle(width, bits, value);
    }
    assert w.written == SignedBits(e, value, bits);
    bytes, pad := Finish(w);
  }

  /** `read_signed` of a field from a new reader over `bytes`. */
  method ReadSignedField(e: Endianness, width: nat, bits: nat, bytes: seq<Byte>) returns (r: Result<int, IoError>)
    requires IsWidth(width) && 1 <= bits <= width
    ensures r.Ok? <==> bits <= 8 * |bytes|
    ensures r.Ok? ==> SignedFits(r.value, bits) && BytesBits(e, bytes)[..bits] == SignedBits(e, r.value, bits)
  {
    var rd := new BitReader(e, bytes);
    if e == BigEndian {
      r := rd.ReadSignedBig(width, bits);
    } else {
      r := rd.ReadSignedLittle(width, bits);
    }
    if r.Ok? {
      assert rd.stream[..0] + SignedBits(e, r.value, bits) == SignedBits(e, r.value, bits);
    }
  }

  /** `write_signed` then `byte_align`, then `read_signed` of the same width
      from the written bytes, gives back the value, in either bit order. */
  method SignedRoundTrip(e: Endianness, width: nat, bits: nat, value: int) returns (r: Result<int, IoError>)
    requires IsWidth(width) && 1 <= bits <= width && SignedFits(value, bits)
    ensures r == Ok(value)
  {
    var bytes, pad := WriteSignedField(e, width, bits, value);
    r := ReadSignedField(e, width, bits, bytes);
    assert BytesBits(e, bytes)[..bits] == SignedBits(e, value, bits);
    SignedBitsInjective(e, value, r.value, bits);
  }

  /** `write_unary0` (`b` set) or `write_unary1` (`b` clear) of a count into
      a new writer, then `byte_align`: the bytes written hold `value` copies of
      `b`, the stop bit `!b` and fewer than 8 zero bits. */
  method WriteUnaryField(e: Endianness, value: nat, b: bool) returns (bytes: seq<Byte>, ghost pad: seq<bool>)
    requires value < 0x1_0000_0000
    ensures BytesBits(e, bytes) == (Repeat(b, value) + [!b]) + pad
    ensures pad == Repeat(false, (8 - (value + 1) % 8) % 8)
  {
    var w := new BitWriter(e);
    if b {
      var _ := w.WriteUnary0(value);
    } else {
      var _ := w.WriteUnary1(value);
    }
    assert w.written == Repeat(b, value) + [!b];
    bytes, pad := Finish(w);
  }

  /** `read_unary0` (`b` set) or `read_unary1` (`b` clear) from a new reader
      over `bytes`: the run of `b` and its stop bit at the front of the bytes'
      bits, when a stop bit is there. */
  method ReadUnaryField(e: Endianness, bytes: seq<Byte>, b: bool) returns (r: Result<nat, IoError>)
    ensures r.Ok? <==> exists i | 0 <= i < |BytesBits(e, bytes)| :: BytesBits(e, bytes)[i] == !b
    ensures r.Ok? ==> r.value < |BytesBits(e, bytes)| && BytesBits(e, bytes)[..r.value + 1] == Repeat(b, r.value) + [!b]
  {
    var rd := new BitReader(e, bytes);
    if b {
      r := rd.ReadUnary0();
    } else {
      r := rd.ReadUnary1();
    }
    if r.Ok? {
      assert rd.stream[..0] + (Repeat(b, r.value) + [!b]) == Repeat(b, r.value) + [!b];
    }
  }

  /** A unary count written and then read back with the matching reader
      (`write_unary0`/`read_unary0` when `b` is set, `write_unary1`/
      `read_unary1` when it is clear) is the count that was written. */
  method UnaryRoundTrip(e: Endianness, value: nat, b: bool) returns (r: Result<nat, IoError>)
    requires value < 0x1_0000_0000
    ensures r == Ok(value)
  {
    var bytes, pad := WriteUnaryField(e, value, b);
    ghost var s := BytesBits(e, bytes);
    ghost var run := Repeat(b, value) + [!b];
    assert s[..value + 1] == run;
    assert s[value] == run[value] == !b;
    r := ReadUnaryField(e, bytes, b);
    if r.value <= value {
      RunLengthUnique(s, r.value, value, b);
    } else {
      RunLengthUnique(s, value, r.value, b);
    }
  }

  /** For codes that make both a read tree and a write table, the field the
      write table holds for a symbol, in either bit order, is the bits of a
      code that the read tree takes back to that symbol. */
  lemma HuffmanAgree<T>(values: Codes<T>, e: Endianness, i: nat)
    requires forall j | 0 <= j < |values| :: |values[j].1| <= 64
    requires BuildReadTree(values).Ok? && BuildWriteTree(values).Ok? && FirstFor(values, i)
    ensures HasSymbol(BuildWriteTree(values).value, values[i].0)
    ensures values[i].0 in BuildWriteTree(values).value.littleEndian
    ensures var (n, v) := Get(BuildWriteTree(values).value, e, values[i].0);
            v < Pow2(n) && ToBits(e, v, n) == CodeBits(values[i].1) &&
            Lookup(BuildReadTree(values).value, values[i].1) == Some(values[i].0)
  {
    BuildWriteTreeValid(values);
    BuildReadTreeFinds(values);
  }
}
