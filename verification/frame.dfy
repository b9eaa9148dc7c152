// The Douyu frame: `serializeDouyu` and `deserializeDouyu` of the chat
// client. A frame is a 12-byte header (the full length twice, the packet
// type, an encryption flag and a reserved byte), the UTF-8 body and a
// terminating zero byte.

module Frame {
  import opened Wrappers
  import opened Binary
  import opened Utf8

  /** Packet type of a frame the client sends. */
  const CLIENT_SEND_TO_SERVER: int := 689
  const ENCRYPTED: int := 0
  const RESERVED: int := 0

  /** The header bytes the length field counts besides the body: the
      second length field, packet type, encryption flag, reserved byte and
      the terminating zero. */
  const LENGTH_OVERHEAD: int := 9

  /** Header bytes before the body. */
  const HEADER: nat := 12

  /** The first length field alone. */
  function LengthField(length: int): (w: Writer)
    ensures |w.data| == 4
  {
    WriteInt(NewWriter([]), 4 + 4 + length + 1, 4, Little)
  }

  /** The 12 header bytes with `length` standing for the body length. */
  function HeaderWriter(length: int): (w: Writer)
    ensures |w.data| == HEADER
    ensures w.data[..4] == LengthField(length).data
  {
    var w1 := LengthField(length);
    var w2 := WriteInt(w1, 4 + 4 + length + 1, 4, Little);
    var w3 := WriteInt(w2, CLIENT_SEND_TO_SERVER, 2, Little);
    var w4 := WriteInt(w3, ENCRYPTED, 1, Little);
    WriteInt(w4, RESERVED, 1, Little)
  }

  /** A header, then `bs`, then the terminating zero. */
  function FrameWriter(h: Writer, bs: seq<byte>): (w: Writer)
    ensures |w.data| == |h.data| + |bs| + 1
    ensures w.data[..|h.data|] == h.data
    ensures forall i :: 0 <= i < |bs| ==> w.data[|h.data| + i] == bs[i] as int
    ensures w.data[|w.data| - 1] == 0
  {
    var w6 := WriteBytes(h, ToNumbers(bs));
    ZeroByte(w6.data);
    var w := WriteInt(w6, 0, 1, Little);
    assert forall i :: 0 <= i < |bs| ==> w.data[|h.data| + i] == bs[i] as int by {
      forall i | 0 <= i < |bs|
        ensures w.data[|h.data| + i] == bs[i] as int
      {
        assert w.data[|h.data| + i] == w.data[..|w6.data|][|h.data| + i] == w6.data[|h.data| + i];
        assert w6.data[|h.data| + i] == w6.data[|h.data|..][i];
      }
    }
    w
  }

  /** The bytes a frame writer puts after the header, as buffer bytes. */
  lemma FrameBody(h: Writer, bs: seq<byte>)
    ensures var f := Buffer(FrameWriter(h, bs));
      |f| == |h.data| + |bs| + 1 && f[|h.data|..|h.data| + |bs|] == bs
  {
    var w := FrameWriter(h, bs);
    var f := Buffer(w);
    forall i | 0 <= i < |bs|
      ensures f[|h.data|..|h.data| + |bs|][i] == bs[i]
    {
      assert w.data[|h.data| + i] == bs[i] as int;
      assert f[|h.data| + i] == (w.data[|h.data| + i] % 256) as byte;
    }
  }

  /** The frame for `body` with `length` standing for the body length in
      both length fields. */
  function Compose(body: string, length: int): (frame: seq<byte>)
    ensures |frame| == HEADER + |Encode(body)| + 1
  {
    Buffer(FrameWriter(HeaderWriter(length), Encode(body)))
  }

  /** The fixed parts of a client frame: the second length field repeats
      the first, the packet type is 689 (`B1 02` little endian), the
      encryption flag and the reserved byte are zero, and so is the last
      byte. */
  predicate Layout(frame: seq<byte>) {
    |frame| >= HEADER + 1
    && frame[4] == frame[0] && frame[5] == frame[1] && frame[6] == frame[2] && frame[7] == frame[3]
    && frame[8] == 0xB1 && frame[9] == 0x02
    && frame[10] == 0 && frame[11] == 0
    && frame[|frame| - 1] == 0
  }

  /** `serializeDouyu(body)` as written: the length fields count the body's
      UTF-16 code units (`body.length`), not its UTF-8 bytes. */
  function Serialize(body: string): (frame: seq<byte>)
    ensures |frame| == HEADER + |Encode(body)| + 1
  {
    Compose(body, JsLength(body))
  }

  /** The frame as the header layout intends it: the length fields count
      the UTF-8 bytes that follow. */
  function SerializeBytes(body: string): (frame: seq<byte>)
    ensures |frame| == HEADER + |Encode(body)| + 1
  {
    Compose(body, |Encode(body)|)
  }

  /** The signed little-endian value of the first length field. */
  function FullLength(buffer: seq<byte>): int
    requires |buffer| >= 4
  {
    ToInt32(Int32Bits(buffer, 0, Little))
  }

  /** The body length a frame announces; a length field below 9 announces
      an empty body, since `readBytes` of a non-positive count reads nothing. */
  function BodyLength(buffer: seq<byte>): nat
    requires |buffer| >= 4
  {
    if FullLength(buffer) - LENGTH_OVERHEAD > 0 then FullLength(buffer) - LENGTH_OVERHEAD else 0
  }

  /** `deserializeDouyu(buffer)`: the header is read and, apart from the
      first length field, ignored; the body is decoded as UTF-8; a buffer too
      short for header, body and terminator gives null. Bytes after the
      terminator are ignored. */
  function Deserialize(buffer: seq<byte>): (res: Option<string>)
    ensures res.Some? <==> |buffer| >= HEADER + 1 && |buffer| >= HEADER + BodyLength(buffer) + 1
    ensures res.Some? ==> res.value == Decode(buffer[HEADER..HEADER + BodyLength(buffer)])
  {
    var r := NewReader(buffer);
    match ReadInt32(r, Little)
    case Overflow(_) => None
    case Ok(full, r) =>
      ReadInt32Bits(NewReader(buffer), Little);
      assert full == FullLength(buffer);
      match ReadInt32(r, Little)
      case Overflow(_) => None
      case Ok(_, r) =>
        var bodyLength := full - LENGTH_OVERHEAD;
        match ReadShort(r, Little)
        case Overflow(_) => None
        case Ok(_, r) =>
          match ReadByte(r)
          case Overflow(_) => None
          case Ok(_, r) =>
            match ReadByte(r)
            case Overflow(_) => None
            case Ok(_, r) =>
              assert r == Reader(buffer, HEADER);
              match ReadBytes(r, bodyLength)
              case Overflow(_) => None
              case Ok(bytes, r) =>
                assert bytes == buffer[HEADER..HEADER + BodyLength(buffer)];
                match ReadByte(r)
                case Overflow(_) => None
                case Ok(_, _) => Some(Decode(bytes))
  }

  // ---------------------------------------------------------------------
  // Layout of a composed frame

  /** The header: the length twice, the packet type 689 in two bytes, then
      the two zero bytes. */
  lemma HeaderLayout(length: int)
    ensures var h := HeaderWriter(length).data;
      h[4] == h[0] && h[5] == h[1] && h[6] == h[2] && h[7] == h[3]
      && h[8] == 0xB1 && h[9] == 0x02 && h[10] == 0 && h[11] == 0
  {
    HeaderLengths(length);
    HeaderFlags(length);
  }

  /** The first eight header bytes are the length field twice. */
  lemma HeaderLengths(length: int)
    ensures var h := HeaderWriter(length).data;
      h[4] == h[0] && h[5] == h[1] && h[6] == h[2] && h[7] == h[3]
  {
    var w2 := WriteInt(LengthField(length), 4 + 4 + length + 1, 4, Little);
    var w3 := WriteInt(w2, CLIENT_SEND_TO_SERVER, 2, Little);
    var w4 := WriteInt(w3, ENCRYPTED, 1, Little);
    var h := HeaderWriter(length).data;
    assert h == WriteInt(w4, RESERVED, 1, Little).data;
    LengthTwice(length);
    forall i | 0 <= i < 8
      ensures h[i] == w2.data[i]
    {
      WriteIntKeeps(w4, RESERVED, 1, Little, i);
      WriteIntKeeps(w3, ENCRYPTED, 1, Little, i);
      WriteIntKeeps(w2, CLIENT_SEND_TO_SERVER, 2, Little, i);
    }
  }

  /** The last four header bytes are the packet type and two zeros. */
  lemma HeaderFlags(length: int)
    ensures var h := HeaderWriter(length).data;
      h[8] == 0xB1 && h[9] == 0x02 && h[10] == 0 && h[11] == 0
  {
    var w2 := WriteInt(LengthField(length), 4 + 4 + length + 1, 4, Little);
    var w3 := WriteInt(w2, CLIENT_SEND_TO_SERVER, 2, Little);
    var w4 := WriteInt(w3, ENCRYPTED, 1, Little);
    var h := HeaderWriter(length).data;
    assert h == WriteInt(w4, RESERVED, 1, Little).data;
    PacketType(w2.data);
    ZeroByte(w3.data);
    ZeroByte(w4.data);
    WriteIntKeeps(w4, RESERVED, 1, Little, 8);
    WriteIntKeeps(w3, ENCRYPTED, 1, Little, 8);
    WriteIntKeeps(w4, RESERVED, 1, Little, 9);
    WriteIntKeeps(w3, ENCRYPTED, 1, Little, 9);
    WriteIntKeeps(w4, RESERVED, 1, Little, 10);
  }

  /** Appending keeps the bytes already written. */
  lemma WriteIntKeeps(w: Writer, v: int, k: int, e: Endian, i: int)
    requires 0 <= i < |w.data|
    ensures WriteInt(w, v, k, e).data[i] == w.data[i]
  {
    var w' := WriteInt(w, v, k, e);
    assert w'.data[..|w.data|][i] == w.data[i];
  }

  /** The two length fields are equal. */
  lemma LengthTwice(length: int)
    ensures var w2 := WriteInt(LengthField(length), 4 + 4 + length + 1, 4, Little).data;
      |w2| == 8 && w2[4] == w2[0] && w2[5] == w2[1] && w2[6] == w2[2] && w2[7] == w2[3]
  {
    var n := 4 + 4 + length + 1;
    var w1 := LengthField(length);
    var w2 := WriteInt(w1, n, 4, Little);
    FourLittle([], n);
    FourLittle(w1.data, n);
    forall i | 0 <= i < 4
      ensures w2.data[4 + i] == w2.data[i]
    {
      WriteIntKeeps(w1, n, 4, Little, i);
    }
  }

  /** A zero written in one byte is a zero byte. */
  lemma ZeroByte(d: seq<int>)
    ensures var w := WriteInt(Writer(d), 0, 1, Little).data;
      |w| == |d| + 1 && w[|d|] == 0
  {
    assert ToUint32(0) == 0;
    assert Pow256(0) == 1;
    assert LowByte(0, 0) == 0;
  }

  /** 689 written in two little-endian bytes is `B1 02`. */
  lemma PacketType(d: seq<int>)
    ensures var w := WriteInt(Writer(d), CLIENT_SEND_TO_SERVER, 2, Little).data;
      |w| == |d| + 2 && w[|d|] == 0xB1 && w[|d| + 1] == 0x02
  {
    assert ToUint32(CLIENT_SEND_TO_SERVER) == 689;
    assert LowByte(689, 0) == 0xB1 && LowByte(689, 1) == 0x02;
    assert (|d| + 1 - |d|) % 4 == 1;
  }

  /** The fixed bytes of every composed frame. */
  lemma ComposeLayout(body: string, length: int)
    ensures Layout(Compose(body, length))
  {
    HeaderLayout(length);
    FrameLayout(HeaderWriter(length), Encode(body));
  }

  /** Header numbers with the fixed parts of a client frame. */
  predicate HeaderNumbers(h: seq<int>) {
    |h| == HEADER
    && h[4] == h[0] && h[5] == h[1] && h[6] == h[2] && h[7] == h[3]
    && h[8] == 0xB1 && h[9] == 0x02 && h[10] == 0 && h[11] == 0
  }

  /** Any body framed after such a header gives a frame with the fixed
      parts in place. */
  lemma FrameLayout(h: Writer, bs: seq<byte>)
    requires HeaderNumbers(h.data)
    ensures Layout(Buffer(FrameWriter(h, bs)))
  {
    var w := FrameWriter(h, bs);
    var f := Buffer(w);
    forall i | 0 <= i < HEADER
      ensures f[i] == (h.data[i] % 256) as byte
    {
      assert w.data[i] == w.data[..HEADER][i];
    }
    assert f[|f| - 1] == (w.data[|w.data| - 1] % 256) as byte;
  }

  lemma BufferPrefix(w: Writer, w': Writer, k: nat)
    requires k <= |w.data| <= |w'.data| && w'.data[..|w.data|] == w.data
    ensures Buffer(w')[..k] == Buffer(w)[..k]
  {
    assert forall i :: 0 <= i < k ==> w'.data[i] == w.data[i];
  }

  lemma Int32BitsOfPrefix(a: seq<byte>, b: seq<byte>)
    requires |a| >= 4 && |b| >= 4 && a[..4] == b[..4]
    ensures Int32Bits(a, 0, Little) == Int32Bits(b, 0, Little)
  {
    assert a[0] == b[0] && a[1] == b[1] && a[2] == b[2] && a[3] == b[3];
  }

  /** The first length field of a composed frame holds `9 + length` modulo
      2^32. */
  lemma ComposeLength(body: string, length: int)
    ensures Int32Bits(Compose(body, length), 0, Little) == ToUint32(LENGTH_OVERHEAD + length)
  {
    FrameLengthField(HeaderWriter(length), Encode(body), length);
  }

  /** Whatever follows a header that starts with the length field, the
      frame's first four bytes read back the length. */
  lemma FrameLengthField(h: Writer, bs: seq<byte>, length: int)
    requires |h.data| >= 4 && h.data[..4] == LengthField(length).data
    ensures Int32Bits(Buffer(FrameWriter(h, bs)), 0, Little) == ToUint32(LENGTH_OVERHEAD + length)
  {
    var w1 := LengthField(length);
    var w := FrameWriter(h, bs);
    forall i | 0 <= i < 4
      ensures w.data[i] == w1.data[i]
    {
      assert w.data[i] == w.data[..|h.data|][i] == h.data[..4][i];
    }
    BufferPrefix(w1, w, 4);
    WrittenInt32Bits([], 4 + 4 + length + 1, Little);
    Int32BitsOfPrefix(Buffer(w), Buffer(w1));
  }

  /** The bytes after the header of a composed frame are the body's UTF-8
      encoding. */
  lemma ComposeBody(body: string, length: int)
    ensures var frame := Compose(body, length);
      frame[HEADER..HEADER + |Encode(body)|] == Encode(body)
  {
    FrameBody(HeaderWriter(length), Encode(body));
  }

  /** The length field and the body of a composed frame together. */
  lemma ComposeFacts(body: string, length: int)
    ensures var frame := Compose(body, length);
      |frame| == HEADER + |Encode(body)| + 1 && Layout(frame)
      && Int32Bits(frame, 0, Little) == ToUint32(LENGTH_OVERHEAD + length)
      && frame[HEADER..HEADER + |Encode(body)|] == Encode(body)
  {
    ComposeLayout(body, length);
    ComposeLength(body, length);
    ComposeBody(body, length);
  }

  /** What the reader recovers from a composed frame whose length field
      stays below 2^31: the first `length` bytes of the body's encoding,
      decoded, provided `length` does not exceed the encoding. */
  lemma DeserializeCompose(body: string, length: nat)
    requires LENGTH_OVERHEAD + length < TWO_31
    ensures var res := Deserialize(Compose(body, length));
      (res.Some? <==> length <= |Encode(body)|) &&
      (res.Some? ==> res.value == Decode(Encode(body)[..length]))
  {
    ComposeAnnounces(body, length);
    DeserializeFrame(Compose(body, length), Encode(body), length);
  }

  /** A frame of `|bs| + 13` bytes whose length field announces `length`
      body bytes and whose body holds `bs`. */
  predicate Announces(frame: seq<byte>, bs: seq<byte>, length: nat) {
    |frame| == HEADER + |bs| + 1
    && FullLength(frame) == LENGTH_OVERHEAD + length
    && frame[HEADER..HEADER + |bs|] == bs
  }

  lemma ComposeAnnounces(body: string, length: nat)
    requires LENGTH_OVERHEAD + length < TWO_31
    ensures Announces(Compose(body, length), Encode(body), length)
  {
    ComposeFullLength(body, length);
    ComposeBody(body, length);
  }

  lemma ComposeFullLength(body: string, length: nat)
    requires LENGTH_OVERHEAD + length < TWO_31
    ensures FullLength(Compose(body, length)) == LENGTH_OVERHEAD + length
  {
    ComposeLength(body, length);
    SmallUint32(LENGTH_OVERHEAD + length);
  }

  /** The reader on any frame whose length field announces `length` body
      bytes and whose body holds `bs`. */
  lemma DeserializeFrame(frame: seq<byte>, bs: seq<byte>, length: nat)
    requires Announces(frame, bs, length)
    ensures Deserialize(frame).Some? <==> length <= |bs|
    ensures Deserialize(frame).Some? ==> Deserialize(frame).value == Decode(bs[..length])
  {
    assert BodyLength(frame) == length;
    assert (|frame| >= HEADER + 1 && |frame| >= HEADER + BodyLength(frame) + 1) <==> length <= |bs|;
    if length <= |bs| {
      var body := frame[HEADER..HEADER + BodyLength(frame)];
      assert body == bs[..length];
      assert Deserialize(frame) == Some(Decode(body));
    }
  }

  /** The frame as written: the fixed header bytes, and the UTF-8 body
      right after the header. */
  lemma SerializeLayout(body: string)
    ensures var frame := Serialize(body);
      Layout(frame)
      && frame[HEADER..HEADER + |Encode(body)|] == Encode(body)
  {
    ComposeFacts(body, JsLength(body));
  }

  /** The length field of the frame as written holds `9 + body.length`
      modulo 2^32, where `n` is `body.length`. */
  lemma SerializeLengthField(body: string, n: int)
    requires n == JsLength(body)
    ensures Int32Bits(Serialize(body), 0, Little) == ToUint32(LENGTH_OVERHEAD + n)
  {
    ComposeLength(body, n);
  }

  /** The corrected frame: the same layout with the length field holding
      `9` plus the UTF-8 byte count. */
  lemma SerializeBytesLayout(body: string)
    ensures var frame := SerializeBytes(body);
      Layout(frame)
      && Int32Bits(frame, 0, Little) == ToUint32(LENGTH_OVERHEAD + |Encode(body)|)
      && frame[HEADER..HEADER + |Encode(body)|] == Encode(body)
  {
    ComposeFacts(body, |Encode(body)|);
  }

  // ---------------------------------------------------------------------
  // Round trips

  /** With the length counted in bytes, every body comes back, except that
      a leading byte order mark is dropped by the decoder. */
  lemma DeserializeSerializeBytes(body: string)
    requires LENGTH_OVERHEAD + |Encode(body)| < TWO_31
    ensures !(|body| > 0 && body[0] == BOM) ==> Deserialize(SerializeBytes(body)) == Some(body)
    ensures |body| > 0 && body[0] == BOM ==> Deserialize(SerializeBytes(body)) == Some(body[1..])
  {
    DeserializeCompose(body, |Encode(body)|);
    assert Encode(body)[..|Encode(body)|] == Encode(body);
    DecodeEncode(body);
  }

  /** As written, the reader recovers only the first `body.length` bytes of
      the encoding. */
  lemma DeserializeSerialize(body: string)
    requires LENGTH_OVERHEAD + |Encode(body)| < TWO_31
    ensures JsLength(body) <= |Encode(body)| &&
      Deserialize(Serialize(body)) == Some(Decode(Encode(body)[..JsLength(body)]))
  {
    EncodeLengthVersusJsLength(body);
    DeserializeCompose(body, JsLength(body));
  }

  /** The two frames agree on ASCII bodies, so every ASCII body survives the
      frame as written. */
  lemma DeserializeSerializeAscii(body: string)
    requires IsAscii(body) && LENGTH_OVERHEAD + |body| < TWO_31
    ensures Serialize(body) == SerializeBytes(body)
    ensures Deserialize(Serialize(body)) == Some(body)
  {
    EncodeLengthVersusJsLength(body);
    AsciiEncodeLength(body);
    DeserializeSerializeBytes(body);
  }

  /** A body with one non-ASCII character does not survive the frame as
      written: "é" is two bytes but one code unit, so the reader takes only
      the lead byte and decodes it to U+FFFD. */
  lemma SerializeLosesNonAscii()
    ensures Deserialize(Serialize("é")) == Some([REPLACEMENT])
  {
    var body := "é";
    var lead: seq<byte> := [0xC3];
    assert Encode(body)[..JsLength(body)] == lead by {
      EncodeOfAcute();
    }
    assert Decode(lead) == [REPLACEMENT] by {
      TruncatedSequence();
    }
    DeserializeSerialize(body);
  }

  /** The corrected frame carries "é" intact. */
  lemma SerializeBytesKeepsNonAscii()
    ensures Deserialize(SerializeBytes("é")) == Some("é")
  {
    EncodeOfAcute();
    DeserializeSerializeBytes("é");
  }

  lemma EncodeOfAcute()
    ensures Encode("é") == [0xC3, 0xA9]
    ensures JsLength("é") == 1
  {
    var body := "é";
    assert body[1..] == [];
    assert EncodeChar(body[0]) == [0xC3, 0xA9];
  }
}
