/** Bit order, bit fields and the bit accumulator (`BitQueue`) shared by the
    reader and the writer.

    A field of bits is kept as `seq<bool>` in STREAM ORDER: element 0 is the
    bit that is read or written first. The two bit orders differ only in how
    such a field denotes a number: big-endian puts the first bit at the most
    significant end, little-endian at the least significant end. */
module Bits {

  /** One byte of the underlying stream (Rust's `u8`). */
  type Byte = x: int | 0 <= x < 256

  datatype Endianness = BigEndian | LittleEndian

  /** The widths of the integer types that reads and writes are generic over. */
  predicate IsWidth(width: nat) {
    width == 8 || width == 16 || width == 32 || width == 64
  }

  function Pow2(n: nat): (r: nat)
    ensures r >= 1
  {
    if n == 0 then 1 else 2 * Pow2(n - 1)
  }

  lemma Pow2Byte()
    ensures Pow2(8) == 256
  {
  }

  lemma {:induction false} Pow2Add(a: nat, b: nat)
    ensures Pow2(a + b) == Pow2(a) * Pow2(b)
    decreases a
  {
    if a > 0 {
      Pow2Add(a - 1, b);
      assert Pow2(a + b) == 2 * (Pow2(a - 1) * Pow2(b));
    }
  }

  lemma {:induction false} Pow2Monotone(a: nat, b: nat)
    requires a <= b
    ensures Pow2(a) <= Pow2(b)
    decreases b
  {
    if a < b {
      Pow2Monotone(a, b - 1);
    }
  }

  lemma MulMonotone(a: nat, b: nat, m: nat)
    requires a <= b
    ensures a * m <= b * m
  {
    assert b * m == a * m + (b - a) * m;
  }

  /** Euclidean division recovers the parts of `q * m + r` when `r < m`. */
  lemma DivModUnique(q: nat, r: nat, m: nat)
    requires r < m
    ensures (q * m + r) / m == q && (q * m + r) % m == r
  {
    var x := q * m + r;
    var q', r' := x / m, x % m;
    assert x == q' * m + r';
    if q' > q {
      MulMonotone(q + 1, q', m);
      assert false;
    } else if q' < q {
      MulMonotone(q' + 1, q, m);
      assert false;
    }
  }

  function BitValue(b: bool): nat {
    if b then 1 else 0
  }

  /** The number that a field denotes, its bits given in stream order. */
  function FromBits(e: Endianness, bs: seq<bool>): (r: nat)
    ensures r < Pow2(|bs|)
    decreases |bs|
  {
    if bs == [] then 0
    else if e == BigEndian then 2 * FromBits(e, bs[..|bs| - 1]) + BitValue(bs[|bs| - 1])
    else BitValue(bs[0]) + 2 * FromBits(e, bs[1..])
  }

  /** Some field of each length denotes each number below its bound. */
  lemma {:induction false} ToBitsExists(e: Endianness, v: nat, n: nat)
    requires v < Pow2(n)
    ensures exists r: seq<bool> :: |r| == n && FromBits(e, r) == v
    decreases n
  {
    if n == 0 {
      assert FromBits(e, []) == v;
    } else {
      ToBitsExists(e, v / 2, n - 1);
      var w: seq<bool> :| |w| == n - 1 && FromBits(e, w) == v / 2;
      if e == BigEndian {
        var r := w + [v % 2 == 1];
        assert r[..|r| - 1] == w;
        assert FromBits(e, r) == v;
      } else {
        var r := [v % 2 == 1] + w;
        assert r[1..] == w;
        assert FromBits(e, r) == v;
      }
    }
  }

  /** A number written as twice a half plus a bit has one half and one bit. */
  lemma HalfAndBit(x: nat, y: nat, p: bool, q: bool)
    requires 2 * x + BitValue(p) == 2 * y + BitValue(q)
    ensures x == y && p == q
  {
  }

  /** Two big-endian fields of one length that denote the same number are the same field. */
  lemma {:induction false} FromBitsInjectiveBig(a: seq<bool>, b: seq<bool>)
    requires |a| == |b| && FromBits(BigEndian, a) == FromBits(BigEndian, b)
    ensures a == b
    decreases |a|
  {
    if a != [] {
      var n := |a| - 1;
      HalfAndBit(FromBits(BigEndian, a[..n]), FromBits(BigEndian, b[..n]), a[n], b[n]);
      FromBitsInjectiveBig(a[..n], b[..n]);
      assert a == a[..n] + [a[n]];
      assert b == b[..n] + [b[n]];
    }
  }

  /** Two little-endian fields of one length that denote the same number are the same field. */
  lemma {:induction false} FromBitsInjectiveLittle(a: seq<bool>, b: seq<bool>)
    requires |a| == |b| && FromBits(LittleEndian, a) == FromBits(LittleEndian, b)
    ensures a == b
    decreases |a|
  {
    if a != [] {
      HalfAndBit(FromBits(LittleEndian, a[1..]), FromBits(LittleEndian, b[1..]), a[0], b[0]);
      FromBitsInjectiveLittle(a[1..], b[1..]);
      assert a == [a[0]] + a[1..];
      assert b == [b[0]] + b[1..];
    }
  }

  /** Two fields of one length that denote the same number are the same field. */
  lemma FromBitsInjective(e: Endianness, a: seq<bool>, b: seq<bool>)
    requires |a| == |b| && FromBits(e, a) == FromBits(e, b)
    ensures a == b
  {
    if e == BigEndian {
      FromBitsInjectiveBig(a, b);
    } else {
      FromBitsInjectiveLittle(a, b);
    }
  }

  /** The `n` bits of `v`, in stream order: the only field of length `n` that denotes `v`. */
  ghost function ToBits(e: Endianness, v: nat, n: nat): (r: seq<bool>)
    requires v < Pow2(n)
    ensures |r| == n && FromBits(e, r) == v
  {
    ToBitsExists(e, v, n);
    var r :| |r| == n && FromBits(e, r) == v;
    r
  }

  /** A field is recovered from the number it denotes: `ToBits` and `FromBits` are inverse. */
  lemma ToBitsFromBits(e: Endianness, bs: seq<bool>)
    ensures ToBits(e, FromBits(e, bs), |bs|) == bs
  {
    FromBitsInjective(e, ToBits(e, FromBits(e, bs), |bs|), bs);
  }

  lemma DistributeBig(fa: nat, p: nat, fb: nat, bit: nat)
    ensures 2 * (fa * p + fb) + bit == fa * (2 * p) + (2 * fb + bit)
  {
  }

  lemma DistributeLittle(bit: nat, fa: nat, p: nat, fb: nat)
    ensures bit + 2 * (fa + p * fb) == (bit + 2 * fa) + (2 * p) * fb
  {
  }

  /** Big-endian: the bits of a field that come first are the more significant. */
  lemma {:induction false} FromBitsAppendBig(a: seq<bool>, b: seq<bool>)
    ensures FromBits(BigEndian, a + b) == FromBits(BigEndian, a) * Pow2(|b|) + FromBits(BigEndian, b)
    decreases |b|
  {
    if b == [] {
      assert a + b == a;
    } else {
      var b' := b[..|b| - 1];
      var ab := a + b;
      assert ab[..|ab| - 1] == a + b';
      assert ab[|ab| - 1] == b[|b| - 1];
      FromBitsAppendBig(a, b');
      var fa, fb', bit := FromBits(BigEndian, a), FromBits(BigEndian, b'), BitValue(b[|b| - 1]);
      assert FromBits(BigEndian, ab) == 2 * FromBits(BigEndian, a + b') + bit;
      assert FromBits(BigEndian, b) == 2 * fb' + bit;
      DistributeBig(fa, Pow2(|b'|), fb', bit);
    }
  }

  /** Little-endian: the bits of a field that come first are the less significant. */
  lemma {:induction false} FromBitsAppendLittle(a: seq<bool>, b: seq<bool>)
    ensures FromBits(LittleEndian, a + b) == FromBits(LittleEndian, a) + Pow2(|a|) * FromBits(LittleEndian, b)
    decreases |a|
  {
    if a == [] {
      assert a + b == b;
    } else {
      var a' := a[1..];
      var ab := a + b;
      assert ab[1..] == a' + b;
      assert ab[0] == a[0];
      FromBitsAppendLittle(a', b);
      var fa', fb, bit := FromBits(LittleEndian, a'), FromBits(LittleEndian, b), BitValue(a[0]);
      assert FromBits(LittleEndian, ab) == bit + 2 * FromBits(LittleEndian, a' + b);
      assert FromBits(LittleEndian, a) == bit + 2 * fa';
      DistributeLittle(bit, fa', Pow2(|a'|), fb);
    }
  }

  /** The eight bits of one byte, in the stream's bit order. */
  ghost function ByteBits(e: Endianness, b: Byte): (r: seq<bool>)
    ensures |r| == 8 && FromBits(e, r) == b
  {
    Pow2Byte();
    ToBits(e, b, 8)
  }

  /** The bits of a byte sequence, byte after byte, each byte in the stream's bit order. */
  ghost function BytesBits(e: Endianness, bytes: seq<Byte>): (r: seq<bool>)
    ensures |r| == 8 * |bytes|
  {
    if bytes == [] then []
    else ByteBits(e, bytes[0]) + BytesBits(e, bytes[1..])
  }

  lemma {:induction false} BytesBitsAppend(e: Endianness, a: seq<Byte>, b: seq<Byte>)
    ensures BytesBits(e, a + b) == BytesBits(e, a) + BytesBits(e, b)
    decreases |a|
  {
    if a == [] {
      assert a + b == b;
    } else {
      var ab := a + b;
      assert ab[1..] == a[1..] + b;
      assert ab[0] == a[0];
      BytesBitsAppend(e, a[1..], b);
    }
  }

  lemma BytesBitsSnoc(e: Endianness, s: seq<Byte>, b: Byte)
    ensures BytesBits(e, s + [b]) == BytesBits(e, s) + ByteBits(e, b)
  {
    BytesBitsAppend(e, s, [b]);
    assert BytesBits(e, [b]) == ByteBits(e, b) + BytesBits(e, []);
  }

  /** The bits of the first `k` bytes are the first `8 * k` bits. */
  lemma BytesBitsPrefix(e: Endianness, s: seq<Byte>, k: nat)
    requires k <= |s|
    ensures BytesBits(e, s)[..8 * k] == BytesBits(e, s[..k])
  {
    assert s == s[..k] + s[k..];
    BytesBitsAppend(e, s[..k], s[k..]);
  }

  /** `stream` is the bits of `bytes`, one byte after another: `|stream| == 8 * |bytes|`
      and each byte's bits follow the bits of the bytes before it. */
  ghost predicate Decodes(e: Endianness, bytes: seq<Byte>, stream: seq<bool>) {
    |stream| == 8 * |bytes| &&
    forall p {:trigger ByteBits(e, bytes[p])} | 0 <= p < |bytes| ::
      stream[..8 * (p + 1)] == stream[..8 * p] + ByteBits(e, bytes[p])
  }

  /** The bits of byte `p` follow the bits of the bytes before it. */
  lemma StreamByte(e: Endianness, s: seq<Byte>, p: nat)
    requires p < |s|
    ensures BytesBits(e, s)[..8 * (p + 1)] == BytesBits(e, s)[..8 * p] + ByteBits(e, s[p])
  {
    BytesBitsPrefix(e, s, p);
    BytesBitsPrefix(e, s, p + 1);
    assert s[..p + 1] == s[..p] + [s[p]];
    BytesBitsSnoc(e, s[..p], s[p]);
  }

  /** `BytesBits` decodes byte by byte. */
  lemma BytesBitsDecodes(e: Endianness, s: seq<Byte>)
    ensures Decodes(e, s, BytesBits(e, s))
  {
    forall p | 0 <= p < |s|
      ensures BytesBits(e, s)[..8 * (p + 1)] == BytesBits(e, s)[..8 * p] + ByteBits(e, s[p])
    {
      StreamByte(e, s, p);
    }
  }

  /** A copy `b` of the bytes from `p` on has the bits of the stream from bit
      `c0 = 8 * p` to bit `c1 = 8 * (p + |b|)`. */
  lemma {:induction false} CopyBits(e: Endianness, s: seq<Byte>, stream: seq<bool>, p: nat, b: seq<Byte>, c0: nat, c1: nat)
    requires Decodes(e, s, stream) && p + |b| <= |s| && forall j | 0 <= j < |b| :: b[j] == s[p + j]
    requires c0 == 8 * p && c1 == 8 * (p + |b|)
    ensures stream[..c1] == stream[..c0] + BytesBits(e, b)
    decreases |b|
  {
    if b == [] {
      assert stream[..c0] + BytesBits(e, b) == stream[..c0];
    } else {
      var n := |b| - 1;
      CopyBits(e, s, stream, p, b[..n], c0, 8 * (p + n));
      assert stream[..8 * (p + n + 1)] == stream[..8 * (p + n)] + ByteBits(e, s[p + n]);
      BytesBitsSnoc(e, b[..n], b[n]);
      assert b[..n] + [b[n]] == b;
      PrefixChain(stream, c0, 8 * (p + n), c1, BytesBits(e, b[..n]), ByteBits(e, b[n]));
    }
  }

  /** A stream decodes a byte sequence exactly when it is that sequence's bits. */
  lemma DecodesIff(e: Endianness, s: seq<Byte>, stream: seq<bool>)
    ensures Decodes(e, s, stream) <==> stream == BytesBits(e, s)
  {
    BytesBitsDecodes(e, s);
    if Decodes(e, s, stream) {
      CopyBits(e, s, stream, 0, s, 0, 8 * |s|);
      assert stream[..0] == [] && stream[..8 * |s|] == stream;
    }
  }

  /** A prefix that extends another by `a + b` passes through the prefix `m` that extends it by `a`. */
  lemma PrefixSplit<T>(s: seq<T>, c: nat, m: nat, d: nat, a: seq<T>, b: seq<T>)
    requires m == c + |a| && d == m + |b| <= |s| && s[..d] == s[..c] + (a + b)
    ensures s[..m] == s[..c] + a
    ensures s[..d] == s[..m] + b
  {
    assert s[..m] == s[..d][..m];
    assert (s[..c] + (a + b))[..m] == s[..c] + a;
  }

  /** Extending a prefix by nothing leaves it as it is. */
  lemma PrefixEmpty<T>(s: seq<T>, n: nat, m: nat, b: seq<T>)
    requires m == n <= |s| && |b| == 0
    ensures s[..n] == s[..m] + b
  {
    assert s[..m] + b == s[..m];
  }

  /** Appending nothing leaves a sequence as it is. */
  lemma AppendEmpty<T>(a: seq<T>, b: seq<T>)
    requires |b| == 0
    ensures a + b == a
  {
  }

  /** Two successive extensions of a prefix are one extension. */
  lemma PrefixChain<T>(s: seq<T>, c0: nat, c1: nat, c2: nat, a: seq<T>, b: seq<T>)
    requires c0 <= |s| && c1 <= |s| && c2 <= |s|
    requires s[..c1] == s[..c0] + a && s[..c2] == s[..c1] + b
    ensures s[..c2] == s[..c0] + (a + b)
  {
    assert (s[..c0] + a) + b == s[..c0] + (a + b);
  }

  /** Where bit `8 * p - q` stands in its byte, for `q < 8`: `q` bits short of
      the next byte boundary. */
  lemma CursorInByte(p: nat, q: nat)
    requires q < 8 && q <= 8 * p
    ensures (8 * p - q) % 8 == (8 - q) % 8
    ensures (8 - (8 * p - q) % 8) % 8 == q
    ensures (8 * p - q) % 8 == 0 <==> q == 0
  {
    if q == 0 {
      DivModUnique(p, 0, 8);
    } else {
      DivModUnique(p - 1, 8 - q, 8);
    }
  }

  /** `n / 8` and `n % 8`: whole bytes and leftover bits of `n` bits. */
  method Split8(n: nat) returns (bytes: nat, bits: nat)
    ensures n == 8 * bytes + bits && bits < 8
  {
    bytes, bits := n / 8, n % 8;
  }

  /** `n` copies of bit `b`. */
  function Repeat(b: bool, n: nat): (r: seq<bool>)
    ensures |r| == n
  {
    seq(n, _ => b)
  }

  lemma RepeatAppend(b: bool, m: nat, n: nat)
    ensures Repeat(b, m) + Repeat(b, n) == Repeat(b, m + n)
  {
  }

  /** All-ones fields denote 2^n - 1 and all-zeros fields denote 0, in either bit order. */
  lemma {:induction false} RepeatValue(e: Endianness, b: bool, n: nat)
    ensures FromBits(e, Repeat(b, n)) == if b then Pow2(n) - 1 else 0
    decreases n
  {
    if n > 0 {
      RepeatValue(e, b, n - 1);
      var r := Repeat(b, n);
      if e == BigEndian {
        assert r[..n - 1] == Repeat(b, n - 1);
      } else {
        assert r[1..] == Repeat(b, n - 1);
      }
    }
  }

  /** The byte whose eight bits are all `b`: 0xFF for ones, 0x00 for zeros. */
  function SaturatedByte(b: bool): Byte {
    if b then 255 else 0
  }

  /** A byte is all `b` exactly when it is `SaturatedByte(b)`; any other byte holds a `!b`. */
  lemma ByteSaturated(e: Endianness, x: Byte, b: bool)
    ensures x == SaturatedByte(b) <==> ByteBits(e, x) == Repeat(b, 8)
    ensures x != SaturatedByte(b) ==> !b in ByteBits(e, x)
  {
    Pow2Byte();
    SaturatedIff(e, ByteBits(e, x), b);
    if x != SaturatedByte(b) {
      NotRepeatHasOther(ByteBits(e, x), b);
    }
  }

  /** Bytes that are all `SaturatedByte(b)` make a run of `b`. */
  lemma {:induction false} BytesSaturated(e: Endianness, s: seq<Byte>, b: bool)
    requires forall i | 0 <= i < |s| :: s[i] == SaturatedByte(b)
    ensures BytesBits(e, s) == Repeat(b, 8 * |s|)
    decreases |s|
  {
    if s != [] {
      BytesSaturated(e, s[1..], b);
      ByteSaturated(e, s[0], b);
      RepeatAppend(b, 8, 8 * (|s| - 1));
    }
  }

  /** A field is all `b` exactly when it denotes the all-`b` number. */
  lemma SaturatedIff(e: Endianness, bs: seq<bool>, b: bool)
    ensures FromBits(e, bs) == (if b then Pow2(|bs|) - 1 else 0) <==> bs == Repeat(b, |bs|)
  {
    RepeatValue(e, b, |bs|);
    if FromBits(e, bs) == (if b then Pow2(|bs|) - 1 else 0) {
      FromBitsInjective(e, bs, Repeat(b, |bs|));
    }
  }

  lemma NotRepeatHasOther(bs: seq<bool>, b: bool)
    requires bs != Repeat(b, |bs|)
    ensures !b in bs
  {
    var i :| 0 <= i < |bs| && bs[i] != Repeat(b, |bs|)[i];
    assert bs[i] == !b;
  }

  /** Loading byte `p` after the prefix `pre ++ acc` and splitting its bits
      into `head` and `tail` extends the prefix by `head` (up to bit `mid`),
      and `tail` is what is left of the byte (up to the boundary `8 * p1`). */
  lemma LoadSplit(e: Endianness, s: seq<Byte>, stream: seq<bool>, p: nat, c: nat,
                  acc: seq<bool>, head: seq<bool>, tail: seq<bool>, p1: nat, mid: nat)
    requires Decodes(e, s, stream) && p < |s| && c <= 8 * p && stream[..8 * p] == stream[..c] + acc
    requires ByteBits(e, s[p]) == head + tail
    requires p1 == p + 1 && mid == 8 * p + |head|
    ensures stream[..mid] == stream[..c] + (acc + head)
    ensures stream[..8 * p1] == stream[..mid] + tail
  {
    assert stream[..8 * (p + 1)] == stream[..8 * p] + ByteBits(e, s[p]);
    PrefixSplit(stream, 8 * p, mid, 8 * p1, head, tail);
    PrefixChain(stream, c, 8 * p, mid, acc, head);
  }

  /** A prefix that ends in a run of `b`s has `b` at each position of the run. */
  lemma PrefixRun(s: seq<bool>, c: nat, p: nat, b: bool)
    requires c <= p <= |s| && s[..p] == s[..c] + Repeat(b, p - c)
    ensures forall i | c <= i < p :: s[i] == b
  {
    forall i | c <= i < p
      ensures s[i] == b
    {
      assert s[i] == s[..p][i];
    }
  }

  /** The bits from `c` to the end are all `b` when the bits from `c` to the
      boundary `8 * p` are, and so is every byte from `p` on. */
  lemma RunToEnd(e: Endianness, s: seq<Byte>, stream: seq<bool>, p: nat, c: nat, base: nat, b: bool)
    requires Decodes(e, s, stream) && p <= |s| && c + base == 8 * p
    requires stream[..8 * p] == stream[..c] + Repeat(b, base)
    requires forall j | p <= j < |s| :: s[j] == SaturatedByte(b)
    ensures forall i | c <= i < |stream| :: stream[i] == b
  {
    var rest := 8 * (|s| - p);
    CopyBits(e, s, stream, p, s[p..], 8 * p, |stream|);
    BytesSaturated(e, s[p..], b);
    PrefixChain(stream, c, 8 * p, |stream|, Repeat(b, base), Repeat(b, rest));
    RepeatAppend(b, base, rest);
    assert stream[..|stream|] == stream;
    PrefixRun(stream, c, |stream|, b);
  }

  /** A run of `base` bits `b` up to the boundary `8 * p`, whole bytes
      `SaturatedByte(b)` from `p` to `q`, and byte `q` starting with `n` more
      `b`s and a `!b`, make one run of `count` bits ended at bit `c1`; the rest
      of byte `q` follows. */
  lemma RunAcrossBytes(e: Endianness, s: seq<Byte>, stream: seq<bool>, p: nat, q: nat, c: nat, base: nat,
                       b: bool, n: nat, tail: seq<bool>, count: nat, p1: nat, c1: nat)
    requires Decodes(e, s, stream) && p <= q < |s| && c + base == 8 * p
    requires stream[..8 * p] == stream[..c] + Repeat(b, base)
    requires forall j | p <= j < q :: s[j] == SaturatedByte(b)
    requires ByteBits(e, s[q]) == Repeat(b, n) + [!b] + tail
    requires count == base + 8 * (q - p) + n && p1 == q + 1 && c1 == c + count + 1
    ensures stream[..c1] == stream[..c] + (Repeat(b, count) + [!b])
    ensures stream[..8 * p1] == stream[..c1] + tail
  {
    var whole := 8 * (q - p);
    CopyBits(e, s, stream, p, s[p..q], 8 * p, 8 * q);
    BytesSaturated(e, s[p..q], b);
    PrefixChain(stream, c, 8 * p, 8 * q, Repeat(b, base), Repeat(b, whole));
    RepeatAppend(b, base, whole);
    assert stream[..8 * (q + 1)] == stream[..8 * q] + ByteBits(e, s[q]);
    PrefixChain(stream, c, 8 * q, 8 * p1, Repeat(b, base + whole), ByteBits(e, s[q]));
    RunJoin(b, base + whole, n, tail);
    PrefixSplit(stream, c, c1, 8 * p1, Repeat(b, count) + [!b], tail);
  }

  /** The last bit of a run and its stop bit is the stop bit. */
  lemma RunStop(s: seq<bool>, c: nat, m: nat, n: nat, b: bool)
    requires m == c + n + 1 <= |s| && s[..m] == s[..c] + (Repeat(b, n) + [!b])
    ensures s[m - 1] == !b
  {
    assert s[m - 1] == s[..m][m - 1];
  }

  /** A run of `m` bits followed by `n` more bits and a stop bit is one run of `m + n`. */
  lemma RunJoin(b: bool, m: nat, n: nat, rest: seq<bool>)
    ensures Repeat(b, m) + ((Repeat(b, n) + [!b]) + rest) == (Repeat(b, m + n) + [!b]) + rest
  {
    RepeatAppend(b, m, n);
  }

  /** A stop bit ends a run: the length of a run of `b`s before a `!b` is fixed by the bits. */
  lemma RunLengthUnique(s: seq<bool>, m: nat, n: nat, b: bool)
    requires m <= n < |s| && s[..n + 1] == Repeat(b, n) + [!b]
    requires m < |s| && s[..m + 1] == Repeat(b, m) + [!b]
    ensures m == n
  {
    assert s[m] == s[..m + 1][m] == !b;
    assert forall i | 0 <= i < n :: s[i] == s[..n + 1][i] == b;
  }

  /** `v` is representable in an `n`-bit two's-complement field. */
  predicate SignedFits(v: int, n: nat) {
    n >= 1 && -(Pow2(n - 1) as int) <= v < Pow2(n - 1)
  }

  /** The `n`-bit two's-complement field of `v`, in stream order. */
  ghost function SignedBits(e: Endianness, v: int, n: nat): (r: seq<bool>)
    requires SignedFits(v, n)
    ensures |r| == n
  {
    ToBits(e, if v < 0 then v + Pow2(n) else v, n)
  }

  /** A one-bit field denotes its bit. */
  lemma FromBitsOne(e: Endianness, b: bool)
    ensures FromBits(e, [b]) == BitValue(b)
  {
    assert [b][..0] == [] && [b][1..] == [];
  }

  /** A sign bit put before the bits `mag` (big-endian) adds `2^|mag|` to
      the number when it is set. */
  lemma SignedFieldBig(sign: bool, mag: seq<bool>)
    ensures FromBits(BigEndian, [sign] + mag) == (if sign then Pow2(|mag|) else 0) + FromBits(BigEndian, mag)
  {
    FromBitsOne(BigEndian, sign);
    FromBitsAppendBig([sign], mag);
    if sign {
      assert FromBits(BigEndian, [sign]) == 1;
    }
  }

  /** A sign bit put after the bits `mag` (little-endian) adds `2^|mag|` to
      the number when it is set. */
  lemma SignedFieldLittle(sign: bool, mag: seq<bool>)
    ensures FromBits(LittleEndian, mag + [sign]) == (if sign then Pow2(|mag|) else 0) + FromBits(LittleEndian, mag)
  {
    FromBitsOne(LittleEndian, sign);
    FromBitsAppendLittle(mag, [sign]);
    if sign {
      assert FromBits(LittleEndian, [sign]) == 1;
    }
  }

  /** How `write_signed` lays out a field: big-endian writes the sign bit and then
      the magnitude, `v` or `v + 2^(n-1)` in `n - 1` bits; little-endian writes the
      magnitude first and the sign bit last. */
  lemma SignedBitsSplit(e: Endianness, v: int, n: nat)
    requires SignedFits(v, n)
    ensures var m: int := if v < 0 then v + Pow2(n - 1) else v;
            0 <= m < Pow2(n - 1) &&
            SignedBits(e, v, n) == if e == BigEndian then [v < 0] + ToBits(e, m, n - 1)
                                   else ToBits(e, m, n - 1) + [v < 0]
  {
    var p := Pow2(n - 1);
    assert Pow2(n) == 2 * p;
    var m := if v < 0 then v + p else v;
    var mag := ToBits(e, m, n - 1);
    var f := if e == BigEndian then [v < 0] + mag else mag + [v < 0];
    if e == BigEndian {
      SignedFieldBig(v < 0, mag);
    } else {
      SignedFieldLittle(v < 0, mag);
    }
    var u := if v < 0 then v + Pow2(n) else v;
    assert FromBits(e, f) == u;
    ToBitsFromBits(e, f);
    assert SignedBits(e, v, n) == ToBits(e, u, n);
  }

  /** How `read_signed` decodes a field: a sign bit and `n - 1` magnitude bits
      `m` stand for `m - 2^(n-1)` when the sign is set (`as_negative`) and for
      `m` otherwise, and that number's field is the sign bit and the magnitude
      bits, in the order the bit order puts them. */
  lemma SignedFromParts(e: Endianness, sign: bool, m: nat, n: nat)
    requires n >= 1 && m < Pow2(n - 1)
    ensures var v := if sign then m - Pow2(n - 1) else m;
            SignedFits(v, n) &&
            SignedBits(e, v, n) == if e == BigEndian then [sign] + ToBits(e, m, n - 1)
                                   else ToBits(e, m, n - 1) + [sign]
  {
    var v := if sign then m - Pow2(n - 1) else m;
    SignedBitsSplit(e, v, n);
  }

  /** Two numbers that fit in `n` bits have the same field only if they are equal. */
  lemma SignedBitsInjective(e: Endianness, v: int, w: int, n: nat)
    requires SignedFits(v, n) && SignedFits(w, n) && SignedBits(e, v, n) == SignedBits(e, w, n)
    ensures v == w
  {
    var p := Pow2(n - 1);
    assert Pow2(n) == 2 * p;
    var uv := if v < 0 then v + Pow2(n) else v;
    var uw := if w < 0 then w + Pow2(n) else w;
    assert FromBits(e, SignedBits(e, v, n)) == uv;
    assert FromBits(e, SignedBits(e, w, n)) == uw;
  }

  /** The documented byte `0b10110111` in big-endian order holds the fields
      1 (one bit), 0b01 (two bits) and 0b10111 (five bits), each first bit
      most significant. */
  lemma DocumentedFieldsBig()
    ensures Pow2(1) == 2 && Pow2(2) == 4 && Pow2(5) == 32
    ensures ByteBits(BigEndian, 0xB7) == ToBits(BigEndian, 0x1, 1) + ToBits(BigEndian, 0x1, 2) + ToBits(BigEndian, 0x17, 5)
  {
    var e := BigEndian;
    var a, b, c := ToBits(e, 0x1, 1), ToBits(e, 0x1, 2), ToBits(e, 0x17, 5);
    FromBitsAppendBig(a, b);
    FromBitsAppendBig(a + b, c);
    assert FromBits(e, a + b + c) == 0xB7;
    ToBitsFromBits(e, a + b + c);
  }

  /** The same byte in big-endian order holds the signed four-bit fields -5
      and 7, sign bit first. */
  lemma DocumentedSignedBig()
    ensures SignedFits(-5, 4) && SignedFits(7, 4)
    ensures ByteBits(BigEndian, 0xB7) == SignedBits(BigEndian, -5, 4) + SignedBits(BigEndian, 7, 4)
  {
    var e := BigEndian;
    assert Pow2(4) == 16;
    var hi, lo := SignedBits(e, -5, 4), SignedBits(e, 7, 4);
    assert FromBits(e, hi) == 11 && FromBits(e, lo) == 7;
    FromBitsAppendBig(hi, lo);
    assert FromBits(e, hi + lo) == 0xB7;
    ToBitsFromBits(e, hi + lo);
  }

  /** The documented byte `0b10110111` in little-endian order holds the
      fields 1 (one bit), 0b11 (two bits) and 0b10110 (five bits), each first
      bit least significant. */
  lemma DocumentedFieldsLittle()
    ensures Pow2(1) == 2 && Pow2(2) == 4 && Pow2(5) == 32
    ensures ByteBits(LittleEndian, 0xB7) == ToBits(LittleEndian, 0x1, 1) + ToBits(LittleEndian, 0x3, 2) + ToBits(LittleEndian, 0x16, 5)
  {
    var e := LittleEndian;
    var a, b, c := ToBits(e, 0x1, 1), ToBits(e, 0x3, 2), ToBits(e, 0x16, 5);
    FromBitsAppendLittle(a, b);
    assert FromBits(e, a + b) == 7 && |a + b| == 3 && Pow2(3) == 8;
    FromBitsAppendLittle(a + b, c);
    assert FromBits(e, a + b + c) == 0xB7;
    ToBitsFromBits(e, a + b + c);
  }

  /** The same byte in little-endian order holds the signed four-bit fields
      7 and -5, sign bit last. */
  lemma DocumentedSignedLittle()
    ensures SignedFits(-5, 4) && SignedFits(7, 4)
    ensures ByteBits(LittleEndian, 0xB7) == SignedBits(LittleEndian, 7, 4) + SignedBits(LittleEndian, -5, 4)
  {
    var e := LittleEndian;
    assert Pow2(4) == 16;
    var lo, hi := SignedBits(e, 7, 4), SignedBits(e, -5, 4);
    assert FromBits(e, lo) == 7 && FromBits(e, hi) == 11;
    FromBitsAppendLittle(lo, hi);
    assert FromBits(e, lo + hi) == 0xB7;
    ToBitsFromBits(e, lo + hi);
  }

  /** The bit accumulator of the crate root: `value` holds `bits` bits. */
  datatype BitQueue = BitQueue(value: nat, bits: nat) {
    predicate Valid() {
      value < Pow2(bits)
    }
  }

  const EmptyQueue: BitQueue := BitQueue(0, 0)

  /** The bits held by a queue, in the order they leave it. */
  ghost function QueueBits(e: Endianness, q: BitQueue): seq<bool>
    requires q.Valid()
  {
    ToBits(e, q.value, q.bits)
  }

  lemma PushBitsBig(q: BitQueue, n: nat, v: nat)
    requires q.Valid() && v < Pow2(n)
    ensures q.value * Pow2(n) + v < Pow2(q.bits + n)
    ensures ToBits(BigEndian, q.value * Pow2(n) + v, q.bits + n)
            == QueueBits(BigEndian, q) + ToBits(BigEndian, v, n)
  {
    var a, b := QueueBits(BigEndian, q), ToBits(BigEndian, v, n);
    var s := a + b;
    FromBitsAppendBig(a, b);
    assert FromBits(BigEndian, s) == q.value * Pow2(n) + v;
    ToBitsFromBits(BigEndian, s);
  }

  lemma PushBitsLittle(q: BitQueue, n: nat, v: nat)
    requires q.Valid() && v < Pow2(n)
    ensures q.value + Pow2(q.bits) * v < Pow2(q.bits + n)
    ensures ToBits(LittleEndian, q.value + Pow2(q.bits) * v, q.bits + n)
            == QueueBits(LittleEndian, q) + ToBits(LittleEndian, v, n)
  {
    var a, b := QueueBits(LittleEndian, q), ToBits(LittleEndian, v, n);
    var s := a + b;
    FromBitsAppendLittle(a, b);
    assert FromBits(LittleEndian, a) == q.value && |a| == q.bits;
    assert FromBits(LittleEndian, b) == v;
    ToBitsFromBits(LittleEndian, s);
  }

  /** `push`: big-endian appends at the low end, little-endian at the high end;
      either way the new bits leave the queue after the old ones. */
  method Push(e: Endianness, q: BitQueue, n: nat, v: nat) returns (r: BitQueue)
    requires q.Valid() && v < Pow2(n)
    ensures r.Valid() && r.bits == q.bits + n
    ensures QueueBits(e, r) == QueueBits(e, q) + ToBits(e, v, n)
  {
    if e == BigEndian {
      PushBitsBig(q, n, v);
      r := BitQueue(q.value * Pow2(n) + v, q.bits + n);
    } else {
      PushBitsLittle(q, n, v);
      r := BitQueue(q.value + Pow2(q.bits) * v, q.bits + n);
    }
  }

  lemma PopBits(e: Endianness, q: BitQueue, n: nat)
    requires q.Valid() && n <= q.bits
    ensures var m := q.bits - n;
            var s := QueueBits(e, q);
            if e == BigEndian then
              q.value / Pow2(m) == FromBits(e, s[..n]) && q.value % Pow2(m) < Pow2(m)
              && ToBits(e, q.value % Pow2(m), m) == s[n..]
            else
              q.value % Pow2(n) == FromBits(e, s[..n]) && q.value / Pow2(n) < Pow2(m)
              && ToBits(e, q.value / Pow2(n), m) == s[n..]
  {
    var m := q.bits - n;
    var s := QueueBits(e, q);
    var front, back := s[..n], s[n..];
    assert s == front + back;
    var f, b := FromBits(e, front), FromBits(e, back);
    ToBitsFromBits(e, back);
    assert ToBits(e, b, m) == back;
    if e == BigEndian {
      FromBitsAppendBig(front, back);
      assert q.value == f * Pow2(m) + b;
      DivModUnique(f, b, Pow2(m));
    } else {
      FromBitsAppendLittle(front, back);
      assert q.value == f + Pow2(n) * b;
      DivModUnique(b, f, Pow2(n));
    }
  }

  /** `pop`: big-endian takes from the high end, little-endian from the low end;
      either way the bits popped are the first `n` to leave the queue. */
  method Pop(e: Endianness, q: BitQueue, n: nat) returns (v: nat, r: BitQueue)
    requires q.Valid() && n <= q.bits
    ensures v < Pow2(n) && r.Valid() && r.bits == q.bits - n
    ensures QueueBits(e, q) == ToBits(e, v, n) + QueueBits(e, r)
  {
    PopBits(e, q, n);
    ghost var s := QueueBits(e, q);
    if e == BigEndian {
      v, r := q.value / Pow2(q.bits - n), BitQueue(q.value % Pow2(q.bits - n), q.bits - n);
    } else {
      v, r := q.value % Pow2(n), BitQueue(q.value / Pow2(n), q.bits - n);
    }
    ToBitsFromBits(e, s[..n]);
    assert s == s[..n] + s[n..];
  }

  /** A one-bit field is its bit. */
  lemma ToBitsSingle(e: Endianness, v: nat)
    requires v < 2
    ensures ToBits(e, v, 1) == [v == 1]
  {
    var f := [v == 1];
    assert f[..0] == [] && f[1..] == [];
    assert FromBits(e, f) == v;
    ToBitsFromBits(e, f);
  }

  /** `all_1`: every bit held is a one. */
  predicate AllOnes(q: BitQueue) {
    q.value == Pow2(q.bits) - 1
  }

  /** `all_0`: every bit held is a zero. */
  predicate AllZeros(q: BitQueue) {
    q.value == 0
  }

  lemma QueueSaturated(e: Endianness, q: BitQueue, b: bool)
    requires q.Valid()
    ensures (if b then AllOnes(q) else AllZeros(q)) <==> QueueBits(e, q) == Repeat(b, q.bits)
  {
    SaturatedIff(e, QueueBits(e, q), b);
  }

  /** `pop_1` (b = true) and `pop_0` (b = false): pop a run of `b` and the bit
      that ends it, and return the length of the run. */
  method PopRun(e: Endianness, q: BitQueue, b: bool) returns (n: nat, r: BitQueue)
    requires q.Valid() && !b in QueueBits(e, q)
    ensures r.Valid() && r.bits == q.bits - n - 1
    ensures QueueBits(e, q) == Repeat(b, n) + [!b] + QueueBits(e, r)
    decreases q.bits
  {
    var bit, rest := Pop(e, q, 1);
    ToBitsSingle(e, bit);
    if (bit == 1) == b {
      n, r := PopRun(e, rest, b);
      assert [b] + (Repeat(b, n) + [!b] + QueueBits(e, r)) == Repeat(b, n + 1) + [!b] + QueueBits(e, r);
      n := n + 1;
    } else {
      assert Repeat(b, 0) + [!b] == [!b];
      n, r := 0, rest;
    }
  }
}
