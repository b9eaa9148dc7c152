/** The byte codec: an append-only writer of JavaScript numbers and a
    forward-only reader over a byte array with a cursor. Integer values are
    JavaScript numbers restricted to integers; the 32-bit conversions the
    bitwise operators apply are written out. */
module Binary {

  newtype byte = x: int | 0 <= x < 256

  datatype Endian = Little | Big

  const TWO_32: int := 0x1_0000_0000
  const TWO_31: int := 0x8000_0000

  /** ECMAScript ToUint32 on an integer: the value modulo 2^32. */
  function ToUint32(v: int): (u: int)
    ensures 0 <= u < TWO_32
    ensures (v - u) % TWO_32 == 0
  {
    v % TWO_32
  }

  /** ECMAScript ToInt32 on an integer: the value modulo 2^32, read as a
      two's-complement signed number. */
  function ToInt32(v: int): (i: int)
    ensures -TWO_31 <= i < TWO_31
    ensures (v - i) % TWO_32 == 0
  {
    var u := ToUint32(v);
    if u >= TWO_31 then u - TWO_32 else u
  }

  function Pow2(n: nat): (p: int)
    ensures p >= 1
  {
    if n == 0 then 1 else 2 * Pow2(n - 1)
  }

  /** 256^j for the four byte positions of a 32-bit word. */
  function Pow256(j: nat): int
    requires j < 4
  {
    [1, 0x100, 0x1_0000, 0x100_0000][j]
  }

  /** Byte `j` (0 = least significant) of an unsigned 32-bit value. */
  function LowByte(u: int, j: nat): int
    requires j < 4
  {
    u / Pow256(j) % 256
  }

  /** Byte `i` computed by the loop of `writeInt`: `(value >> (i * 8)) & 0xff`.
      The shift count is taken modulo 32 and `>>` shifts the ToInt32 value
      arithmetically, which Dafny's floor division by a positive divisor
      matches; `& 0xff` keeps the low eight bits of the two's-complement
      result, which is Dafny's non-negative `% 256`. */
  function ShiftedByte(v: int, i: nat): int {
    ToInt32(v) / Pow2((i * 8) % 32) % 256
  }

  /** How many bytes the loop `for (i = 0; i < byteLength; i++)` emits. */
  function Count(k: int): nat {
    if k > 0 then k else 0
  }

  /** The bytes of `writeInt(value, byteLength)` before any reversal. */
  function IntBytes(v: int, k: int): seq<int> {
    seq(Count(k), i requires 0 <= i < Count(k) => ShiftedByte(v, i))
  }

  function Reverse<T>(s: seq<T>): (r: seq<T>)
    ensures |r| == |s|
    ensures forall i :: 0 <= i < |s| ==> r[i] == s[|s| - 1 - i]
  {
    if |s| == 0 then [] else Reverse(s[1..]) + [s[0]]
  }

  lemma Pow2OfBytes(j: nat)
    requires j < 4
    ensures Pow2((j * 8) % 32) == Pow256(j)
  {
    assert (j * 8) % 32 == 8 * j;
    if j == 0 {
      assert Pow2(0) == 1;
    } else if j == 1 {
      assert Pow2(8) == 0x100;
    } else if j == 2 {
      assert Pow2(16) == 0x1_0000;
    } else {
      assert Pow2(24) == 0x100_0000;
    }
  }

  /** 2^32 / 256^j is a multiple of 256, so taking 2^32 away does not change
      byte `j`. */
  lemma WrapKeepsByte(u: int, j: nat)
    requires j < 4
    ensures (u - TWO_32) / Pow256(j) % 256 == u / Pow256(j) % 256
  {
    if j == 0 {
      WrapByte0(u);
    } else if j == 1 {
      WrapByte1(u);
    } else if j == 2 {
      WrapByte2(u);
    } else {
      WrapByte3(u);
    }
  }

  lemma WrapByte0(u: int)
    ensures (u - TWO_32) / 1 % 256 == u / 1 % 256
  {
    assert (u - TWO_32) / 1 == u - 0x100 * 0x100_0000;
  }

  lemma WrapByte1(u: int)
    ensures (u - TWO_32) / 0x100 % 256 == u / 0x100 % 256
  {
    assert (u - TWO_32) / 0x100 == u / 0x100 - 0x100 * 0x1_0000;
  }

  lemma WrapByte2(u: int)
    ensures (u - TWO_32) / 0x1_0000 % 256 == u / 0x1_0000 % 256
  {
    assert (u - TWO_32) / 0x1_0000 == u / 0x1_0000 - 0x100 * 0x100;
  }

  lemma WrapByte3(u: int)
    ensures (u - TWO_32) / 0x100_0000 % 256 == u / 0x100_0000 % 256
  {
    assert (u - TWO_32) / 0x100_0000 == u / 0x100_0000 - 0x100;
  }

  lemma ShiftedByteAt(v: int, j: nat)
    requires j < 4
    ensures ShiftedByte(v, j) == LowByte(ToUint32(v), j)
  {
    var u := ToUint32(v);
    Pow2OfBytes(j);
    if u >= TWO_31 {
      assert ToInt32(v) == u - TWO_32;
      WrapKeepsByte(u, j);
    }
  }

  /** The shift in `writeInt` wraps every four bytes, so byte `i` is byte
      `i mod 4` of the unsigned 32-bit value. */
  lemma ShiftedByteIsLowByte(v: int, i: nat)
    ensures ShiftedByte(v, i) == LowByte(ToUint32(v), i % 4)
  {
    assert (i * 8) % 32 == (i % 4) * 8;
    ShiftedByteAt(v, i % 4);
    assert ShiftedByte(v, i) == ShiftedByte(v, i % 4);
  }

  // ---------------------------------------------------------------------
  // BinaryWriter

  /** The writer's `data` array. */
  datatype Writer = Writer(data: seq<int>)

  /** `new BinaryWriter(initialBuffer)`: the writer starts from a copy of the
      initial buffer (in a value model a copy and an alias cannot differ). */
  function NewWriter(initial: seq<int>): (w: Writer)
    ensures w.data == initial
  {
    Writer(initial)
  }

  /** `writeInt(value, byteLength, endian)`: appends the low `byteLength`
      bytes of the value modulo 2^32, least significant first for little
      endian and most significant first for big endian. */
  function WriteInt(w: Writer, v: int, k: int, e: Endian): (w': Writer)
    ensures |w'.data| == |w.data| + Count(k)
    ensures w'.data[..|w.data|] == w.data
    ensures forall j :: |w.data| <= j < |w'.data| ==> 0 <= w'.data[j] < 256
    ensures e == Little ==>
      forall j :: |w.data| <= j < |w'.data| ==> w'.data[j] == LowByte(ToUint32(v), (j - |w.data|) % 4)
    ensures e == Big ==>
      forall j :: |w.data| <= j < |w'.data| ==> w'.data[j] == LowByte(ToUint32(v), (|w'.data| - 1 - j) % 4)
  {
    var bytes := IntBytes(v, k);
    forall i | 0 <= i < Count(k)
      ensures bytes[i] == LowByte(ToUint32(v), i % 4)
    {
      ShiftedByteIsLowByte(v, i);
    }
    Writer(w.data + (if e == Little then bytes else Reverse(bytes)))
  }

  /** `writeBytes(bytes)`: appends the bytes verbatim and in order. */
  function WriteBytes(w: Writer, bytes: seq<int>): (w': Writer)
    ensures |w'.data| == |w.data| + |bytes|
    ensures w'.data[..|w.data|] == w.data
    ensures w'.data[|w.data|..] == bytes
  {
    Writer(w.data + bytes)
  }

  /** The `buffer` getter: `new Uint8Array(data)`, which stores each number
      modulo 256. */
  function Buffer(w: Writer): (b: seq<byte>)
    ensures |b| == |w.data|
    ensures forall i :: 0 <= i < |b| && 0 <= w.data[i] < 256 ==> b[i] as int == w.data[i]
  {
    seq(|w.data|, i requires 0 <= i < |w.data| => (w.data[i] % 256) as byte)
  }

  /** The unsigned value of bytes read least significant first. */
  function LittleEndianValue(bs: seq<int>): int {
    if |bs| == 0 then 0 else bs[0] + 256 * LittleEndianValue(bs[1..])
  }

  lemma LowBytesOf(u: int)
    requires 0 <= u < TWO_32
    ensures u % 0x100 == LowByte(u, 0)
    ensures u % 0x1_0000 == LowByte(u, 0) + 0x100 * LowByte(u, 1)
    ensures u % 0x100_0000 == LowByte(u, 0) + 0x100 * LowByte(u, 1) + 0x1_0000 * LowByte(u, 2)
    ensures u == LowByte(u, 0) + 0x100 * LowByte(u, 1) + 0x1_0000 * LowByte(u, 2) + 0x100_0000 * LowByte(u, 3)
  {
    var q1 := u / 0x100;
    var q2 := q1 / 0x100;
    var q3 := q2 / 0x100;
    assert u == 0x100 * q1 + u % 0x100;
    assert q1 == 0x100 * q2 + q1 % 0x100;
    assert q2 == 0x100 * q3 + q2 % 0x100;
    assert u / 0x1_0000 == q2;
    assert u / 0x100_0000 == q3;
    assert q3 < 0x100;
  }

  lemma LittleEndianValueOfFour(bs: seq<int>)
    requires |bs| == 4
    ensures LittleEndianValue(bs[3..]) == bs[3]
    ensures LittleEndianValue(bs[2..]) == bs[2] + 0x100 * bs[3]
    ensures LittleEndianValue(bs[1..]) == bs[1] + 0x100 * bs[2] + 0x1_0000 * bs[3]
    ensures LittleEndianValue(bs) == bs[0] + 0x100 * bs[1] + 0x1_0000 * bs[2] + 0x100_0000 * bs[3]
  {
    assert bs[3..][1..] == [];
    assert bs[2..][1..] == bs[3..];
    assert bs[1..][1..] == bs[2..];
  }

  lemma PowersOf256()
    ensures Pow2(8) == 0x100 && Pow2(16) == 0x1_0000
    ensures Pow2(24) == 0x100_0000 && Pow2(32) == TWO_32
  {
    assert Pow2(8) == 0x100;
    assert Pow2(16) == 0x1_0000;
    assert Pow2(24) == 0x100_0000;
    assert Pow2(32) == TWO_32;
  }

  lemma LittleEndianValueShort(bs: seq<int>)
    requires 1 <= |bs| <= 3
    ensures |bs| == 1 ==> LittleEndianValue(bs) == bs[0]
    ensures |bs| == 2 ==> LittleEndianValue(bs) == bs[0] + 0x100 * bs[1]
    ensures |bs| == 3 ==> LittleEndianValue(bs) == bs[0] + 0x100 * bs[1] + 0x1_0000 * bs[2]
  {
    var full := bs + seq(4 - |bs|, i requires 0 <= i < 4 - |bs| => 0);
    LittleEndianValueOfFour(full);
    if |bs| == 1 {
      assert bs[1..] == [];
    } else if |bs| == 2 {
      assert bs[1..][1..] == [];
    } else {
      assert bs[2..][1..] == [];
      assert bs[1..][1..] == bs[2..];
    }
  }

  lemma LowBytesValue(u: int, bs: seq<int>)
    requires 0 <= u < TWO_32
    requires 1 <= |bs| <= 4
    requires forall i :: 0 <= i < |bs| ==> bs[i] == LowByte(u, i)
    ensures |bs| == 1 ==> LittleEndianValue(bs) == u % 0x100
    ensures |bs| == 2 ==> LittleEndianValue(bs) == u % 0x1_0000
    ensures |bs| == 3 ==> LittleEndianValue(bs) == u % 0x100_0000
    ensures |bs| == 4 ==> LittleEndianValue(bs) == u
  {
    if |bs| == 4 {
      LittleEndianValueOfFour(bs);
    } else {
      LittleEndianValueShort(bs);
    }
    LowBytesOf(u);
  }

  lemma ModOfUint32(v: int)
    ensures ToUint32(v) % 0x100 == v % 0x100
    ensures ToUint32(v) % 0x1_0000 == v % 0x1_0000
    ensures ToUint32(v) % 0x100_0000 == v % 0x100_0000
  {
    var q := v / TWO_32;
    var u := ToUint32(v);
    assert v == TWO_32 * q + u;
    AddMultiple8(0x100_0000 * q, u);
    AddMultiple16(0x1_0000 * q, u);
    AddMultiple24(0x100 * q, u);
  }

  /** Adding a multiple of 2^8, 2^16 or 2^24 leaves the remainder modulo
      it alone. */
  lemma AddMultiple8(k: int, u: int)
    ensures (0x100 * k + u) % 0x100 == u % 0x100
  {
  }

  lemma AddMultiple16(k: int, u: int)
    ensures (0x1_0000 * k + u) % 0x1_0000 == u % 0x1_0000
  {
  }

  lemma AddMultiple24(k: int, u: int)
    ensures (0x100_0000 * k + u) % 0x100_0000 == u % 0x100_0000
  {
  }

  /** For byte lengths 1 to 4, the bytes `writeInt` emits, read least
      significant first, spell the value modulo 256^k. */
  lemma IntBytesValue(v: int, k: int)
    requires 1 <= k <= 4
    ensures k == 1 ==> LittleEndianValue(IntBytes(v, k)) == v % 0x100
    ensures k == 2 ==> LittleEndianValue(IntBytes(v, k)) == v % 0x1_0000
    ensures k == 3 ==> LittleEndianValue(IntBytes(v, k)) == v % 0x100_0000
    ensures k == 4 ==> LittleEndianValue(IntBytes(v, k)) == ToUint32(v)
  {
    var bs := IntBytes(v, k);
    var u := ToUint32(v);
    forall i | 0 <= i < k ensures bs[i] == LowByte(u, i) {
      ShiftedByteIsLowByte(v, i);
    }
    LowBytesValue(u, bs);
    ModOfUint32(v);
  }

  /** The shift count wraps at 32 bits: byte `i + 4` is byte `i` again. */
  lemma ShiftedBytePeriod(v: int, i: nat)
    ensures ShiftedByte(v, 4 + i) == ShiftedByte(v, i)
  {
    assert ((4 + i) * 8) % 32 == (i * 8) % 32;
  }

  /** Because JavaScript takes shift counts modulo 32, asking for more than
      four bytes repeats the same four bytes. */
  lemma IntBytesRepeat(v: int, k: int)
    requires k > 4
    ensures IntBytes(v, k)[4..] == IntBytes(v, k - 4)
  {
    var a := IntBytes(v, k);
    var b := IntBytes(v, k - 4);
    forall i | 0 <= i < k - 4 ensures a[4 + i] == b[i] {
      ShiftedBytePeriod(v, i);
    }
  }

  // ---------------------------------------------------------------------
  // BinaryReader

  /** The reader's buffer and cursor. */
  datatype Reader = Reader(buffer: seq<byte>, position: nat)

  /** The outcome of a read: the value and the advanced reader, or the
      `Buffer overflow` exception together with the cursor it left behind. */
  datatype Read<T> = Ok(value: T, next: Reader) | Overflow(next: Reader)

  /** `new BinaryReader(buffer)` */
  function NewReader(buffer: seq<byte>): (r: Reader)
    ensures r.position == 0 && r.buffer == buffer
  {
    Reader(buffer, 0)
  }

  /** `remaining()` */
  function Remaining(r: Reader): (n: int)
    ensures n == |r.buffer| - r.position
  {
    |r.buffer| - r.position
  }

  /** `hasMore()`: there is at least one byte left. */
  function HasMore(r: Reader): (b: bool)
    ensures b <==> Remaining(r) > 0
  {
    r.position < |r.buffer|
  }

  /** The reader with its cursor run to the end, as a failed multi-byte read
      leaves it. */
  function Exhausted(r: Reader): Reader {
    Reader(r.buffer, if r.position < |r.buffer| then |r.buffer| else r.position)
  }

  /** `readByte()` */
  function ReadByte(r: Reader): (res: Read<byte>)
    ensures res.Overflow? <==> r.position >= |r.buffer|
    ensures res.Overflow? ==> res.next == r
    ensures res.Ok? ==> res.value == r.buffer[r.position] && res.next == Reader(r.buffer, r.position + 1)
  {
    if r.position >= |r.buffer| then Overflow(r)
    else Ok(r.buffer[r.position], Reader(r.buffer, r.position + 1))
  }

  /** `readBytes(length)`: `length` calls of `readByte`, collected in order.
      A request for more than what remains consumes every remaining byte
      before it fails. */
  function ReadBytes(r: Reader, n: int): (res: Read<seq<byte>>)
    ensures n <= 0 ==> res == Ok([], r)
    ensures 0 < n <= Remaining(r) ==>
      res == Ok(r.buffer[r.position..r.position + n], Reader(r.buffer, r.position + n))
    ensures n > 0 && n > Remaining(r) ==> res == Overflow(Exhausted(r))
    decreases n
  {
    if n <= 0 then Ok([], r)
    else match ReadByte(r)
      case Overflow(r1) => Overflow(r1)
      case Ok(b, r1) =>
        match ReadBytes(r1, n - 1)
        case Overflow(r2) => Overflow(r2)
        case Ok(bs, r2) =>
          assert n <= Remaining(r) ==>
            [b] + bs == r.buffer[r.position..r.position + n];
          Ok([b] + bs, r2)
  }

  /** `readShort(endian)`: two bytes combined with `|` and `<<`; the two
      bytes occupy disjoint bits, so the `|` is their sum. */
  function ReadShort(r: Reader, e: Endian): (res: Read<int>)
    ensures Remaining(r) >= 2 ==> res.Ok? && res.next == Reader(r.buffer, r.position + 2)
    ensures res.Ok? ==> 0 <= res.value < 0x1_0000
    ensures Remaining(r) >= 2 && e == Little ==>
      res.value == r.buffer[r.position] as int + 0x100 * r.buffer[r.position + 1] as int
    ensures Remaining(r) >= 2 && e == Big ==>
      res.value == 0x100 * r.buffer[r.position] as int + r.buffer[r.position + 1] as int
    ensures Remaining(r) < 2 ==> res == Overflow(Exhausted(r))
  {
    match ReadBytes(r, 2)
    case Overflow(r1) => Overflow(r1)
    case Ok(b, r1) =>
      var (b0, b1) := (b[0] as int, b[1] as int);
      Ok(if e == Little then b0 + b1 * 0x100 else b0 * 0x100 + b1, r1)
  }

  /** `readInt32(endian)`: four bytes combined with `|` and `<<`. The operands
      occupy disjoint bits, so the `|` is their sum, taken as a 32-bit
      signed value: `b << 24` makes the top byte the sign. */
  function ReadInt32(r: Reader, e: Endian): (res: Read<int>)
    ensures Remaining(r) >= 4 ==> res.Ok? && res.next == Reader(r.buffer, r.position + 4)
    ensures res.Ok? ==> -TWO_31 <= res.value < TWO_31
    ensures Remaining(r) >= 4 && e == Little ==> (res.value < 0 <==> r.buffer[r.position + 3] >= 0x80)
    ensures Remaining(r) >= 4 && e == Big ==> (res.value < 0 <==> r.buffer[r.position] >= 0x80)
    ensures Remaining(r) < 4 ==> res == Overflow(Exhausted(r))
  {
    match ReadBytes(r, 4)
    case Overflow(r1) => Overflow(r1)
    case Ok(b, r1) =>
      var (b0, b1, b2, b3) := (b[0] as int, b[1] as int, b[2] as int, b[3] as int);
      var bits :=
        if e == Little then b0 + b1 * 0x100 + b2 * 0x1_0000 + b3 * 0x100_0000
        else b0 * 0x100_0000 + b1 * 0x1_0000 + b2 * 0x100 + b3;
      Ok(ToInt32(bits), r1)
  }

  // ---------------------------------------------------------------------
  // Writer and reader together

  /** `writeInt(v, 2, e)` followed by `readShort(e)` at the same offset reads
      `v mod 2^16` and moves past the two bytes. */
  lemma WriteIntReadShort(d: seq<int>, v: int, e: Endian)
    ensures var w := WriteInt(Writer(d), v, 2, e);
      ReadShort(Reader(Buffer(w), |d|), e) == Ok(v % 0x1_0000, Reader(Buffer(w), |d| + 2))
  {
    var w := WriteInt(Writer(d), v, 2, e);
    var u := ToUint32(v);
    var b := Buffer(w);
    var n := |d|;
    var (lo, hi) := if e == Little then (b[n] as int, b[n + 1] as int) else (b[n + 1] as int, b[n] as int);
    assert lo == LowByte(u, 0) && hi == LowByte(u, 1) by {
      assert b[n] as int == w.data[n] && b[n + 1] as int == w.data[n + 1];
    }
    assert lo + 0x100 * hi == v % 0x1_0000 by {
      LowBytesOf(u);
      ModOfUint32(v);
    }
  }

  /** The value `readInt32` assembles from the four bytes at the cursor. */
  function Int32Bits(b: seq<byte>, p: nat, e: Endian): int
    requires p + 4 <= |b|
  {
    var (b0, b1, b2, b3) := (b[p] as int, b[p + 1] as int, b[p + 2] as int, b[p + 3] as int);
    if e == Little then b0 + b1 * 0x100 + b2 * 0x1_0000 + b3 * 0x100_0000
    else b0 * 0x100_0000 + b1 * 0x1_0000 + b2 * 0x100 + b3
  }

  lemma ReadInt32Bits(r: Reader, e: Endian)
    requires Remaining(r) >= 4
    ensures ReadInt32(r, e).value == ToInt32(Int32Bits(r.buffer, r.position, e))
  {
    var bytes := ReadBytes(r, 4).value;
    assert bytes == r.buffer[r.position..r.position + 4];
  }

  /** The four bytes at the cursor as plain numbers. */
  function FourAt(r: Reader): (bs: seq<int>)
    requires Remaining(r) >= 4
    ensures |bs| == 4
  {
    seq(4, i requires 0 <= i < 4 => r.buffer[r.position + i] as int)
  }

  /** `readInt32` reads the four bytes at the cursor as an unsigned number,
      least significant byte first for little endian and most significant
      first for big endian, and reinterprets it as a signed 32-bit value. */
  lemma ReadInt32Value(r: Reader, e: Endian)
    requires Remaining(r) >= 4
    ensures e == Little ==> ReadInt32(r, e).value == ToInt32(LittleEndianValue(FourAt(r)))
    ensures e == Big ==> ReadInt32(r, e).value == ToInt32(LittleEndianValue(Reverse(FourAt(r))))
  {
    var bs := FourAt(r);
    ReadInt32Bits(r, e);
    if e == Little {
      LittleEndianValueOfFour(bs);
    } else {
      var rs := Reverse(bs);
      LittleEndianValueOfFour(rs);
      assert rs[0] == bs[3] && rs[1] == bs[2] && rs[2] == bs[1] && rs[3] == bs[0];
    }
  }

  lemma WriteIntFourBytes(d: seq<int>, v: int, e: Endian)
    ensures var w := WriteInt(Writer(d), v, 4, e);
      var u := ToUint32(v);
      var n := |d|;
      |w.data| == n + 4 &&
      if e == Little then
        w.data[n] == LowByte(u, 0) && w.data[n + 1] == LowByte(u, 1) &&
        w.data[n + 2] == LowByte(u, 2) && w.data[n + 3] == LowByte(u, 3)
      else
        w.data[n] == LowByte(u, 3) && w.data[n + 1] == LowByte(u, 2) &&
        w.data[n + 2] == LowByte(u, 1) && w.data[n + 3] == LowByte(u, 0)
  {
    if e == Little {
      FourLittle(d, v);
    } else {
      FourBig(d, v);
    }
  }

  lemma FourLittle(d: seq<int>, v: int)
    ensures var w := WriteInt(Writer(d), v, 4, Little);
      var u := ToUint32(v);
      var n := |d|;
      |w.data| == n + 4 &&
      w.data[n] == LowByte(u, 0) && w.data[n + 1] == LowByte(u, 1) &&
      w.data[n + 2] == LowByte(u, 2) && w.data[n + 3] == LowByte(u, 3)
  {
    LittleAt(d, v, 0);
    LittleAt(d, v, 1);
    LittleAt(d, v, 2);
    LittleAt(d, v, 3);
  }

  lemma FourBig(d: seq<int>, v: int)
    ensures var w := WriteInt(Writer(d), v, 4, Big);
      var u := ToUint32(v);
      var n := |d|;
      |w.data| == n + 4 &&
      w.data[n] == LowByte(u, 3) && w.data[n + 1] == LowByte(u, 2) &&
      w.data[n + 2] == LowByte(u, 1) && w.data[n + 3] == LowByte(u, 0)
  {
    BigAt(d, v, 0);
    BigAt(d, v, 1);
    BigAt(d, v, 2);
    BigAt(d, v, 3);
  }

  /** Byte `i` of a little-endian 4-byte field is byte `i` of the value. */
  lemma LittleAt(d: seq<int>, v: int, i: nat)
    requires i < 4
    ensures var w := WriteInt(Writer(d), v, 4, Little);
      |w.data| == |d| + 4 && w.data[|d| + i] == LowByte(ToUint32(v), i)
  {
    assert (|d| + i - |d|) % 4 == i;
  }

  /** Byte `i` of a big-endian 4-byte field is byte `3 - i` of the value. */
  lemma BigAt(d: seq<int>, v: int, i: nat)
    requires i < 4
    ensures var w := WriteInt(Writer(d), v, 4, Big);
      |w.data| == |d| + 4 && w.data[|d| + i] == LowByte(ToUint32(v), 3 - i)
  {
    assert (|d| + 4 - 1 - (|d| + i)) % 4 == 3 - i;
  }

  lemma SmallUint32(u: int)
    requires 0 <= u < TWO_32
    ensures ToUint32(u) == u && ToInt32(u) == (if u >= TWO_31 then u - TWO_32 else u)
  {
  }

  /** `writeInt(v, 4, e)` followed by `readInt32(e)` at the same offset reads
      `v mod 2^32` as a signed 32-bit number. */
  lemma WriteIntReadInt32(d: seq<int>, v: int, e: Endian)
    ensures var w := WriteInt(Writer(d), v, 4, e);
      ReadInt32(Reader(Buffer(w), |d|), e) == Ok(ToInt32(v), Reader(Buffer(w), |d| + 4))
  {
    var r := Reader(Buffer(WriteInt(Writer(d), v, 4, e)), |d|);
    WrittenInt32Bits(d, v, e);
    ToInt32OfUint32(v);
    ReadInt32Bits(r, e);
  }

  /** The four bytes `writeInt(v, 4, e)` appends reassemble to `v mod 2^32`. */
  lemma WrittenInt32Bits(d: seq<int>, v: int, e: Endian)
    ensures var b := Buffer(WriteInt(Writer(d), v, 4, e));
      |d| + 4 <= |b| && Int32Bits(b, |d|, e) == ToUint32(v)
  {
    var w := WriteInt(Writer(d), v, 4, e);
    var u := ToUint32(v);
    var b := Buffer(w);
    var n := |d|;
    WriteIntFourBytes(d, v, e);
    assert b[n] as int == w.data[n] && b[n + 1] as int == w.data[n + 1];
    assert b[n + 2] as int == w.data[n + 2] && b[n + 3] as int == w.data[n + 3];
    BitsOfBytes(b, n, e, LowByte(u, 0), LowByte(u, 1), LowByte(u, 2), LowByte(u, 3));
    LowBytesOf(u);
  }

  /** Four bytes laid out in the order of `e` combine to their
      little-endian sum. */
  lemma BitsOfBytes(b: seq<byte>, n: nat, e: Endian, x0: int, x1: int, x2: int, x3: int)
    requires n + 4 <= |b|
    requires e == Little ==>
      b[n] as int == x0 && b[n + 1] as int == x1 && b[n + 2] as int == x2 && b[n + 3] as int == x3
    requires e == Big ==>
      b[n] as int == x3 && b[n + 1] as int == x2 && b[n + 2] as int == x1 && b[n + 3] as int == x0
    ensures Int32Bits(b, n, e) == x0 + x1 * 0x100 + x2 * 0x1_0000 + x3 * 0x100_0000
  {
  }

  lemma ToInt32OfUint32(v: int)
    ensures ToInt32(ToUint32(v)) == ToInt32(v)
  {
    SmallUint32(ToUint32(v));
  }
}
