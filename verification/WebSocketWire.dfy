/** Single frames, in numerals. */
module WebSocketWire {
  import opened Basics
  import opened Buffers
  import opened Numbers
  import opened WebSocketFrame
  import opened WebSocketConnection

  // The layout of section 5.2 of RFC 6455, written out a second time without the names that the parser
  // and the encoder share.

  /** The length field, the mask bit being `mask`. */
  function LengthBytes(mask: byte, n: nat): seq<byte>
    requires mask in {0, 0x80} && n <= 0xFFFF_FFFF
  {
    if n < 126 then [mask + n as byte]
    else if n < 0x1_0000 then [mask + 126, (n / 0x100) as byte, (n % 0x100) as byte]
    else
      [mask + 127, 0, 0, 0, 0, (n / 0x100_0000) as byte, (n / 0x1_0000 % 0x100) as byte,
       (n / 0x100 % 0x100) as byte, (n % 0x100) as byte]
  }

  /** Masking flips, in every byte, the bits that are set in the key byte at its index modulo four. */
  lemma MaskedBits(key: seq<byte>, p: seq<byte>, i: nat, k: nat)
    requires |key| == 4 && i < |p| && k < 8
    ensures BitAt(Masked(key, p)[i] as nat, k) == if BitAt(p[i] as nat, k) == BitAt(key[i % 4] as nat, k) then 0 else 1
  {
    XorBitAt(p[i] as nat, key[i % 4] as nat, 8, k);
  }

  /** A masked frame beginning with the byte `first`. */
  function MaskedFrame(first: byte, key: seq<byte>, p: seq<byte>): seq<byte>
    requires |key| == 4 && |p| <= 0xFFFF_FFFF
  {
    [first] + LengthBytes(0x80, |p|) + key + Masked(key, p)
  }

  lemma EightBytes(v: nat)
    requires v <= 0xFFFF_FFFF
    ensures BigEndianBytes(v, 8) == [0, 0, 0, 0, LowByte(v / 0x100_0000), LowByte(v / 0x1_0000), LowByte(v / 0x100), LowByte(v)]
  {
    Powers();
    HighBytes(v, 4, 4);
    FourBytes(v);
    hide BigEndianBytes;
  }

  lemma LengthBytesAre(mask: byte, n: nat)
    requires n <= 0xFFFF_FFFF && mask in {0, 0x80}
    ensures LengthBytes(mask, n) == [mask + Length7(n)] + ExtendedLength(n)
  {
    if n > 0xFFFF {
      EightBytes(n);
      hide BigEndianBytes;
    } else if n > 125 {
      TwoBytes(n);
      hide BigEndianBytes;
    } else {
      AppendNothing([mask + n as byte]);
      hide BigEndianBytes;
    }
  }

  /** What the server writes. */
  lemma ServerFrameIs(opcode: byte, p: seq<byte>)
    requires opcode < 16 && |p| <= 0xFFFF_FFFF
    ensures ServerFrame(opcode, p) == [0x80 + opcode] + LengthBytes(0, |p|) + p
  {
    LengthBytesAre(0, |p|);
  }

  /** The parser on such a frame: the high bit says that it is final, the low four are the opcode. */
  lemma FrameRead(first: byte, key: seq<byte>, p: seq<byte>)
    requires |key| == 4 && |p| <= 0xFFFF_FFFF
    ensures Parse(Fresh, MaskedFrame(first, key, p)) == Done(WireFrame(first >= 0x80, first % 16, p), [])
  {
    hide Parse;
    var f := WireFrame(first >= 0x80, first % 16, p);
    var plain := (if f.fin then 0x80 else 0) + f.opcode;
    var tail := LengthBytes(0x80, |p|) + key + Masked(key, p);
    ParseClientFrame(f, key, []);
    AppendNothing(ClientFrame(f, key));
    SameBytes(f, first, plain, key);
    FirstByte(plain, first, tail);
  }

  lemma SameBytes(f: WireFrame, first: byte, plain: byte, key: seq<byte>)
    requires |key| == 4 && |f.payload| <= 0xFFFF_FFFF && f.opcode < 16 && plain == (if f.fin then 0x80 else 0) + f.opcode
    ensures var tail := LengthBytes(0x80, |f.payload|) + key + Masked(key, f.payload);
            ClientFrame(f, key) == [plain] + tail && MaskedFrame(first, key, f.payload) == [first] + tail
  {
    var n := |f.payload|;
    LengthBytesAre(0x80, n);
    hide LengthBytes;
    hide Masked;
    assert ClientHead(f.fin, f.opcode, n) == [plain] + LengthBytes(0x80, n);
    AppendAssociates([plain], LengthBytes(0x80, n), key);
    AppendAssociates([plain], LengthBytes(0x80, n) + key, Masked(key, f.payload));
    AppendAssociates([first], LengthBytes(0x80, n), key);
    AppendAssociates([first], LengthBytes(0x80, n) + key, Masked(key, f.payload));
  }

  lemma FirstByte(a: byte, b: byte, tail: seq<byte>)
    requires (a >= 0x80 <==> b >= 0x80) && a % 16 == b % 16 && tail != []
    ensures tail[0] >= 0x80 ==> Parse(Fresh, [a] + tail) == Parse(Fresh, [b] + tail)
  {
    assert ([a] + tail)[2..] == tail[1..] == ([b] + tail)[2..];
  }

  /** Waiting for a frame, with nothing carried over. */
  predicate Ready(c: Conn) {
    c.open && c.frame == Fresh && c.buffer == []
  }

  lemma Handled(c: Conn, first: byte, key: seq<byte>, p: seq<byte>, decode: Decoder)
    requires Ready(c) && |key| == 4 && |p| <= 0xFFFF_FFFF
    ensures Receive(c, MaskedFrame(first, key, p), decode)
         == Seal(match Process(c, WireFrame(first >= 0x80, first % 16, p), decode)
                 case Threw(c', code) => Disconnect(c', code)
                 case Next(c') => c')
  {
    var data := MaskedFrame(first, key, p);
    FrameRead(first, key, p);
    assert c.(buffer := []) == c && [] + data == data && c.(frame := Fresh) == c;
    assert Drain(c, data, decode) == After(c, Parse(Fresh, data), decode);
  }

  /** The events that a chunk adds. */
  ghost predicate Adds(c: Conn, chunk: seq<byte>, decode: Decoder, events: seq<Event>) {
    Receive(c, chunk, decode).log == c.log + events
  }

  /** A frame that completes no message and closes nothing: the connection is ready again and holds
      `partial` of the type `kind`. */
  ghost predicate Holds(c: Conn, chunk: seq<byte>, decode: Decoder, partial: Option<seq<byte>>, kind: byte) {
    var d := Receive(c, chunk, decode);
    Ready(d) && d.payload == partial && (partial.Some? ==> d.payloadType == kind)
  }

  /** A complete message of the type `kind`: bytes, or text that must decode. */
  ghost predicate Answers(c: Conn, chunk: seq<byte>, decode: Decoder, kind: byte, bytes: seq<byte>) {
    if kind != 1 then
      Adds(c, chunk, decode, [Delivered(Binary(bytes))]) && Holds(c, chunk, decode, None, kind)
    else
      match decode(bytes)
      case None => Adds(c, chunk, decode, [Closed(1007)])
      case Some(chars) => Adds(c, chunk, decode, [Delivered(Text(chars))]) && Holds(c, chunk, decode, None, kind)
  }

  /** A text frame (1) or binary frame (2), final or the first of several. */
  lemma DataFrame(c: Conn, fin: bool, op: byte, key: seq<byte>, p: seq<byte>, decode: Decoder)
    requires Ready(c) && |key| == 4 && |p| <= 0xFFFF_FFFF && op in {1, 2}
    ensures var chunk := MaskedFrame((if fin then 0x80 else 0) + op, key, p);
            if c.payload.Some? then Adds(c, chunk, decode, [Closed(1002)])
            else if fin then Answers(c, chunk, decode, op, p)
            else Adds(c, chunk, decode, []) && Holds(c, chunk, decode, Some(p), op)
  {
    Handled(c, (if fin then 0x80 else 0) + op, key, p, decode);
    hide MaskedFrame;
    hide Receive;
  }

  /** A continuation frame (0). */
  lemma ContinuationFrame(c: Conn, fin: bool, key: seq<byte>, p: seq<byte>, decode: Decoder)
    requires Ready(c) && |key| == 4 && |p| <= 0xFFFF_FFFF
    ensures var chunk := MaskedFrame(if fin then 0x80 else 0, key, p);
            match c.payload
            case None => Adds(c, chunk, decode, [Closed(1002)])
            case Some(sofar) =>
              if fin then Answers(c, chunk, decode, c.payloadType, sofar + p)
              else Adds(c, chunk, decode, []) && Holds(c, chunk, decode, Some(sofar + p), c.payloadType)
  {
    Handled(c, if fin then 0x80 else 0, key, p, decode);
    hide MaskedFrame;
    hide Receive;
  }

  /** A close frame (8) takes its code from the first two bytes of the partial message. */
  lemma CloseFrame(c: Conn, fin: bool, key: seq<byte>, p: seq<byte>, decode: Decoder)
    requires Ready(c) && |key| == 4 && |p| <= 0xFFFF_FFFF
    ensures var chunk := MaskedFrame(if fin then 0x88 else 8, key, p);
            Adds(c, chunk, decode, [Closed(
              match c.payload
              case None => 1005
              case Some(s) =>
                if |s| < 2 then 1002 else if s[0] == s[1] == 0 then 1005 else 256 * s[0] as nat + s[1] as nat)])
  {
    Handled(c, if fin then 0x88 else 8, key, p, decode);
    hide MaskedFrame;
    hide Receive;
  }

  /** A ping (9) is answered by a pong (10) with the same payload; every other opcode is ignored. */
  lemma ControlFrame(c: Conn, fin: bool, op: byte, key: seq<byte>, p: seq<byte>, decode: Decoder)
    requires Ready(c) && |key| == 4 && |p| <= 0xFFFF_FFFF && 3 <= op < 16 && op != 8
    ensures var chunk := MaskedFrame((if fin then 0x80 else 0) + op, key, p);
            && Adds(c, chunk, decode, if op == 9 then [Sent([0x8A] + LengthBytes(0, |p|) + p)] else [])
            && Holds(c, chunk, decode, c.payload, c.payloadType)
  {
    hide *;
    var first, events := (if fin then 0x80 else 0) + op, if op == 9 then [Sent(ServerFrame(0xA, p))] else [];
    Handled(c, first, key, p, decode);
    ServerFrameIs(0xA, p);
    ReadyOpen(c);
    ControlStep(c, WireFrame(first >= 0x80, first % 16, p), decode);
    KeptOpen(c, MaskedFrame(first, key, p), decode, events);
  }

  lemma ReadyOpen(c: Conn)
    requires Ready(c)
    ensures c.open
  {
  }

  lemma KeptOpen(c: Conn, chunk: seq<byte>, decode: Decoder, events: seq<Event>)
    requires Ready(c) && Receive(c, chunk, decode) == Seal(c.(log := c.log + events))
    ensures Adds(c, chunk, decode, events) && Holds(c, chunk, decode, c.payload, c.payloadType)
  {
    hide Receive;
  }

  lemma ControlStep(c: Conn, f: WireFrame, decode: Decoder)
    requires c.open && 3 <= f.opcode < 16 && f.opcode != 8 && |f.payload| <= 0xFFFF_FFFF
    ensures Process(c, f, decode)
         == Next(c.(log := c.log + if f.opcode == 9 then [Sent(ServerFrame(0xA, f.payload))] else []))
  {
    hide ServerFrame;
    AppendNothing(c.log);
  }

  /** A frame that is not masked, or has four billion bytes or more, closes the connection as soon as its
      head has arrived, whatever follows. */
  lemma BadFrame(c: Conn, data: seq<byte>, decode: Decoder)
    requires Ready(c) && |data| >= 2
    ensures data[1] < 0x80 ==> Adds(c, data, decode, [Closed(1002)])
    ensures data[1] == 0xFF && |data| >= 10 && data[2..6] != [0, 0, 0, 0] ==> Adds(c, data, decode, [Closed(1009)])
  {
    assert c.(buffer := []) == c && [] + data == data && c.(frame := Fresh) == c;
    assert Drain(c, data, decode) == After(c, Parse(Fresh, data), decode);
    BadHead(data);
    hide Parse;
    hide Drain;
  }

  lemma BadHead(data: seq<byte>)
    requires |data| >= 2
    ensures data[1] < 0x80 ==> Parse(Fresh, data) == Rejected(1002)
    ensures data[1] == 0xFF && |data| >= 10 && data[2..6] != [0, 0, 0, 0] ==> Parse(Fresh, data) == Rejected(1009)
  {
    if data[1] == 0xFF && |data| >= 10 && data[2..6] != [0, 0, 0, 0] {
      assert data[2..][..4] == data[2..6];
      assert Parse(Fresh, data) == Parse(WaitLength(data[0] >= 0x80, data[0] % 16, true), data[2..]);
    }
  }

  /** The very first frame that a connection receives, with at most 125 bytes. */
  lemma FirstFrame(op: byte, key: seq<byte>, p: seq<byte>, decode: Decoder)
    requires op < 16 && |key| == 4 && |p| <= 125
    ensures var chunk := [0x80 + op, 0x80 + |p| as byte] + key + Masked(key, p);
            Receive(Opened(), chunk, decode).log ==
              match op
              case 0 => [Closed(1002)]
              case 1 => (match decode(p) case None => [Closed(1007)] case Some(chars) => [Delivered(Text(chars))])
              case 2 => [Delivered(Binary(p))]
              case 8 => [Closed(1005)]
              case 9 => [Sent([0x8A, |p| as byte] + p)]
              case _ => []
  {
    var c := Opened();
    assert [0x80 + op, 0x80 + |p| as byte] + key + Masked(key, p) == MaskedFrame(0x80 + op, key, p);
    if op in {1, 2} {
      DataFrame(c, true, op, key, p, decode);
    } else if op == 0 {
      ContinuationFrame(c, true, key, p, decode);
    } else if op == 8 {
      CloseFrame(c, true, key, p, decode);
    } else {
      ControlFrame(c, true, op, key, p, decode);
      assert [0x8A] + LengthBytes(0, |p|) + p == [0x8A, |p| as byte] + p;
    }
  }
}
