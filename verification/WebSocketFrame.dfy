/** One WebSocket frame: the resumable parser, the encoder, and the wire format of
    section 5.2 of RFC 6455 that both are proved against. */
module WebSocketFrame {
  import opened Basics
  import opened Buffers
  import opened Numbers

  const MAX_PAYLOAD: nat := 0xFFFF_FFFF

  const PROTOCOL_ERROR: nat := 1002
  const TOO_BIG: nat := 1009

  /** A complete frame, as `_processFrame` sees it. */
  datatype WireFrame = WireFrame(fin: bool, opcode: byte, payload: seq<byte>)

  /** How far an incomplete frame has been parsed. */
  datatype Progress =
    | Fresh
    | WaitLength(fin: bool, opcode: byte, wide: bool)
    | WaitPayload(fin: bool, opcode: byte, length: nat)

  /** What one call of the parser makes of the available bytes. */
  datatype Outcome =
    | Pending(progress: Progress, rest: seq<byte>)
    | Done(frame: WireFrame, rest: seq<byte>)
    | Rejected(code: nat)

  // ---------------------------------------------------------------- numbers

  /** Leading zero bytes and a number that fits in the low `n` bytes go together. */
  lemma {:induction false} BigEndianHigh(v: nat, n: nat, k: nat)
    ensures v < Pow256(n) ==> BigEndianBytes(v, k + n)[..k] == seq(k, _ => 0)
    ensures v >= Pow256(n) && v < Pow256(k + n) ==> BigEndianBytes(v, k + n)[..k] != seq(k, _ => 0)
    decreases n
  {
    var s := BigEndianBytes(v, k + n);
    if n == 0 {
      assert s[..k] == s;
      if v == 0 {
        ZeroBytes(k);
      } else if v < Pow256(k) {
        BigEndianInverse(v, k);
        ZeroBytes(k);
        BigEndianInverse(0, k);
      }
    } else {
      BigEndianHigh(v / 256, n - 1, k);
      assert s[..k] == BigEndianBytes(v / 256, k + (n - 1))[..k];
    }
  }

  // ------------------------------------------------------------ wire format

  /** XOR with the repeated masking key (section 5.3 of RFC 6455). */
  function Masked(key: seq<byte>, data: seq<byte>): (r: seq<byte>)
    requires |key| == 4
    ensures |r| == |data|
  {
    seq(|data|, i requires 0 <= i < |data| => Xor(data[i], key[i % 4]))
  }

  lemma MaskedTwice(key: seq<byte>, data: seq<byte>)
    requires |key| == 4
    ensures Masked(key, Masked(key, data)) == data
  {
    forall i | 0 <= i < |data| ensures Masked(key, Masked(key, data))[i] == data[i] {
      XorTwice(data[i], key[i % 4]);
    }
  }

  /** The seven-bit length and the extended length bytes that follow it. */
  function Length7(length: nat): (r: byte)
    ensures r < 0x80
  {
    if length <= 125 then length as byte else if length <= 0xFFFF then 126 else 127
  }

  function ExtendedLength(length: nat): seq<byte> {
    if length <= 125 then [] else if length <= 0xFFFF then BigEndianBytes(length, 2) else BigEndianBytes(length, 8)
  }

  /** The unmasked frame a server sends. */
  function ServerFrame(opcode: byte, payload: seq<byte>): seq<byte>
    requires opcode < 16
  {
    [0x80 + opcode, Length7(|payload|)] + ExtendedLength(|payload|) + payload
  }

  /** The first bytes of a client frame, up to the masking key. */
  function ClientHead(fin: bool, opcode: byte, n: nat): seq<byte>
    requires opcode < 16
  {
    [(if fin then 0x80 else 0) + opcode, 0x80 + Length7(n)] + ExtendedLength(n)
  }

  /** The masked frame a client sends. */
  function ClientFrame(f: WireFrame, key: seq<byte>): seq<byte>
    requires |key| == 4 && f.opcode < 16
  {
    ClientHead(f.fin, f.opcode, |f.payload|) + key + Masked(key, f.payload)
  }

  /** The masking step on a server frame's bytes: set the mask bit, insert the key after the header
      and mask the rest. */
  function MaskWire(wire: seq<byte>, header: nat, key: seq<byte>): seq<byte>
    requires |key| == 4 && 2 <= header <= |wire| && wire[1] < 0x80
  {
    [wire[0], 0x80 + wire[1]] + wire[2..header] + key + Masked(key, wire[header..])
  }

  lemma MaskedServerFrame(opcode: byte, payload: seq<byte>, key: seq<byte>)
    requires |key| == 4 && opcode < 16
    ensures MaskWire(ServerFrame(opcode, payload), 2 + |ExtendedLength(|payload|)|, key)
         == ClientFrame(WireFrame(true, opcode, payload), key)
  {
    var header := 2 + |ExtendedLength(|payload|)|;
    var wire := ServerFrame(opcode, payload);
    assert wire[header..] == payload;
    assert wire[2..header] == ExtendedLength(|payload|);
  }

  // ---------------------------------------------------------- parser, as a function

  function Stage(progress: Progress): nat {
    match progress
    case Fresh => 2
    case WaitLength(_, _, _) => 1
    case WaitPayload(_, _, _) => 0
  }

  /** Header, length and payload are taken one after the other, each only when all its bytes are
      there. */
  function Parse(progress: Progress, data: seq<byte>): Outcome
    decreases Stage(progress)
  {
    match progress
    case Fresh =>
      if |data| < 2 then
        Pending(Fresh, data)
      else if data[1] < 0x80 then
        Rejected(PROTOCOL_ERROR)
      else
        Parse(AfterHeader(data[0], data[1]), data[2..])
    case WaitLength(fin, opcode, wide) =>
      var n := if wide then 8 else 2;
      if |data| < n then
        Pending(progress, data)
      else if wide && data[..4] != [0, 0, 0, 0] then
        Rejected(TOO_BIG)
      else
        Parse(WaitPayload(fin, opcode, BigEndian(data[..n])), data[n..])
    case WaitPayload(fin, opcode, length) =>
      if |data| < 4 + length then
        Pending(progress, data)
      else
        Done(WireFrame(fin, opcode, Masked(data[..4], data[4..4 + length])), data[4 + length..])
  }

  function AfterHeader(first: byte, second: byte): (p: Progress)
    ensures !p.Fresh?
  {
    var fin, opcode, short := first >= 0x80, first % 16, second % 128;
    if short < 0x7E then WaitPayload(fin, opcode, short as nat) else WaitLength(fin, opcode, short == 0x7F)
  }

  /** Bytes that arrive later never change what was already decided, and the parser resumes exactly
      where it stopped. */
  function Resume(outcome: Outcome, more: seq<byte>): Outcome {
    match outcome
    case Pending(progress, rest) => Parse(progress, rest + more)
    case Done(frame, rest) => Done(frame, rest + more)
    case Rejected(code) => Rejected(code)
  }

  lemma {:induction false} ParseResumes(progress: Progress, a: seq<byte>, b: seq<byte>)
    ensures Parse(progress, a + b) == Resume(Parse(progress, a), b)
    decreases Stage(progress)
  {
    match progress
    case Fresh =>
      if |a| >= 2 {
        assert (a + b)[2..] == a[2..] + b;
        ParseResumes(AfterHeader(a[0], a[1]), a[2..], b);
      }
    case WaitLength(fin, opcode, wide) =>
      var n := if wide then 8 else 2;
      if |a| >= n {
        assert (a + b)[..n] == a[..n] && (a + b)[n..] == a[n..] + b;
        assert wide ==> (a + b)[..4] == a[..4];
        ParseResumes(WaitPayload(fin, opcode, BigEndian(a[..n])), a[n..], b);
      }
    case WaitPayload(fin, opcode, length) =>
      if |a| >= 4 + length {
        assert (a + b)[..4] == a[..4] && (a + b)[4..4 + length] == a[4..4 + length];
        assert (a + b)[4 + length..] == a[4 + length..] + b;
      }
  }

  /** A finished frame consumed something, and an unfinished one kept what it did not use. */
  lemma {:induction false} ParseConsumes(progress: Progress, data: seq<byte>)
    ensures var r := Parse(progress, data);
            && (r.Done? ==> |r.rest| < |data|)
            && (r.Pending? ==> |r.rest| <= |data| && Parse(r.progress, r.rest) == r)
    decreases Stage(progress)
  {
    match progress
    case Fresh =>
      if |data| >= 2 && data[1] >= 0x80 {
        ParseConsumes(AfterHeader(data[0], data[1]), data[2..]);
      }
    case WaitLength(fin, opcode, wide) =>
      var n := if wide then 8 else 2;
      if |data| >= n {
        ParseConsumes(WaitPayload(fin, opcode, BigEndian(data[..n])), data[n..]);
      }
    case WaitPayload(fin, opcode, length) =>
  }

  // --------------------------------------------------------------- round trip

  /** The parser inverts the client's encoder in all three length encodings, whatever follows. */
  lemma ParseClientFrame(f: WireFrame, key: seq<byte>, rest: seq<byte>)
    requires |key| == 4 && f.opcode < 16 && |f.payload| <= MAX_PAYLOAD
    ensures Parse(Fresh, ClientFrame(f, key) + rest) == Done(f, rest)
  {
    var n := |f.payload|;
    var body := key + Masked(key, f.payload) + rest;
    Powers();
    ParseHead(f.fin, f.opcode, n, body);
    ClientFrameHead(f, key, rest);
    AfterClientLength(f, key, rest);
  }

  lemma ClientFrameHead(f: WireFrame, key: seq<byte>, rest: seq<byte>)
    requires |key| == 4 && f.opcode < 16
    ensures ClientFrame(f, key) + rest
         == ClientHead(f.fin, f.opcode, |f.payload|) + (key + Masked(key, f.payload) + rest)
  {
    AppendAssociates(ClientHead(f.fin, f.opcode, |f.payload|), key, Masked(key, f.payload));
    AppendAssociates(ClientHead(f.fin, f.opcode, |f.payload|), key + Masked(key, f.payload), rest);
  }

  lemma ParseHead(fin: bool, opcode: byte, n: nat, body: seq<byte>)
    requires opcode < 16 && n < Pow256(8)
    ensures Parse(Fresh, ClientHead(fin, opcode, n) + body)
         == if n > MAX_PAYLOAD then Rejected(TOO_BIG) else Parse(WaitPayload(fin, opcode, n), body)
  {
    var data := ClientHead(fin, opcode, n) + body;
    assert data[2..] == ExtendedLength(n) + body;
    assert data[0] % 16 == opcode && data[1] % 128 == Length7(n);
    assert Parse(Fresh, data) == Parse(AfterHeader(data[0], data[1]), data[2..]);
    if n > 125 {
      LengthPrefix(fin, opcode, n, body);
    } else {
      assert data[2..] == body;
    }
  }

  lemma AfterClientLength(f: WireFrame, key: seq<byte>, rest: seq<byte>)
    requires |key| == 4
    ensures Parse(WaitPayload(f.fin, f.opcode, |f.payload|), key + Masked(key, f.payload) + rest) == Done(f, rest)
  {
    var n := |f.payload|;
    var body := key + Masked(key, f.payload) + rest;
    assert body[..4] == key && body[4..4 + n] == Masked(key, f.payload) && body[4 + n..] == rest;
    MaskedTwice(key, f.payload);
  }

  /** The extended length is read back, and refused exactly when it needs more than four bytes. */
  lemma LengthPrefix(fin: bool, opcode: byte, n: nat, body: seq<byte>)
    requires 125 < n < Pow256(8)
    ensures Parse(WaitLength(fin, opcode, n > 0xFFFF), ExtendedLength(n) + body)
         == if n > MAX_PAYLOAD then Rejected(TOO_BIG) else Parse(WaitPayload(fin, opcode, n), body)
  {
    var wide := n > 0xFFFF;
    var k := if wide then 8 else 2;
    var ext := ExtendedLength(n);
    assert (ext + body)[..k] == ext && (ext + body)[k..] == body;
    Powers();
    BigEndianInverse(n, k);
    if wide {
      var zero: byte := 0;
      BigEndianHigh(n, 4, 4);
      assert (ext + body)[..4] == ext[..4];
      assert seq(4, _ => zero) == [zero, zero, zero, zero];
    }
  }

  lemma Powers()
    ensures Pow256(2) == 0x1_0000 && Pow256(4) == 0x1_0000_0000 && Pow256(8) == 0x1_0000_0000_0000_0000
  {
    assert Pow256(1) == 256 && Pow256(3) == 0x100_0000;
    assert Pow256(4) == 0x1_0000_0000;
    assert Pow256(5) == 0x100_0000_0000 && Pow256(6) == 0x1_0000_0000_0000;
    assert Pow256(7) == 0x100_0000_0000_0000;
  }

  /** A frame announcing a length that the encoder refuses is refused by the parser as soon as its
      length is complete, and no shorter one is. */
  lemma RejectsExactlyUnencodable(fin: bool, opcode: byte, n: nat, body: seq<byte>)
    requires opcode < 16 && n < Pow256(8)
    ensures Parse(Fresh, ClientHead(fin, opcode, n) + body).Rejected?
        <==> n > MAX_PAYLOAD
  {
    ParseHead(fin, opcode, n, body);
  }

  // ------------------------------------------------------------ the Frame object

  const STATE_NEW := 0
  const STATE_WAIT_LENGTH := 1
  const STATE_WAIT_PAYLOAD := 2
  const STATE_DONE := 3

  class Frame {
    var opcode: byte
    var fin: bool
    var payload: array?<byte>
    var payloadLength: nat
    var state: int

    constructor ()
      ensures Receiving() && Progress() == Fresh && payload == null
    {
      opcode, fin, payload, payloadLength, state := 0, false, null, 0, STATE_NEW;
    }

    /** The state of an unfinished frame. */
    ghost function Progress(): Progress
      reads this
    {
      if state == STATE_WAIT_LENGTH then WaitLength(fin, opcode, payloadLength == 0x7F)
      else if state == STATE_WAIT_PAYLOAD then WaitPayload(fin, opcode, payloadLength)
      else Fresh
    }

    /** The frame is one that still takes data. */
    ghost predicate Receiving()
      reads this
    {
      state in {STATE_NEW, STATE_WAIT_LENGTH, STATE_WAIT_PAYLOAD}
      && (state == STATE_WAIT_LENGTH ==> payloadLength in {0x7E, 0x7F})
    }

    ghost predicate IsDone(f: WireFrame)
      reads this, payload
    {
      state == STATE_DONE && payload != null && f == WireFrame(fin, opcode, payload[..])
    }

    /** The frame, and the `end` of what was used of the buffer, are what `outcome` says. */
    ghost predicate Realizes(outcome: Outcome, buffer: array<byte>, end: Result<nat, nat>)
      reads this, payload, buffer
    {
      && (end.Success? ==> end.value <= buffer.Length)
      && match outcome
         case Rejected(code) => end == Failure(code)
         case Pending(progress, rest) =>
           end.Success? && Receiving() && Progress() == progress && rest == buffer[end.value..]
         case Done(frame, rest) =>
           end.Success? && IsDone(frame) && rest == buffer[end.value..]
    }

    /** Feeds `buffer[bufferOffset..]`; the result is the number of bytes used, or the error code of
        the thrown ProtocolError. */
    method AddData(buffer: array<byte>, bufferOffset: nat) returns (r: Result<nat, nat>)
      requires bufferOffset <= buffer.Length && Receiving()
      modifies this
      ensures Realizes(Parse(old(Progress()), buffer[bufferOffset..]), buffer,
                       if r.Success? then Success(bufferOffset + r.value) else r)
      ensures state == STATE_DONE ==> payload != null && fresh(payload)
    {
      var offset := bufferOffset;
      if state == STATE_NEW {
        if buffer.Length - offset < 2 { return Success(0); }
        TakeHeader(buffer[offset], buffer[offset + 1]);
        if buffer[offset + 1] < 0x80 { return Failure(PROTOCOL_ERROR); }
        offset := offset + 2;
        assert buffer[bufferOffset..][2..] == buffer[offset..];
      }
      var end := AddLength(buffer, offset);
      if end.Failure? { return end; }
      return Success(end.value - bufferOffset);
    }

    /** The first two bytes of a frame. */
    method TakeHeader(first: byte, second: byte)
      modifies this
      ensures Receiving() && state != STATE_NEW && Progress() == AfterHeader(first, second)
    {
      fin := first >= 0x80;
      opcode := first % 16;
      payloadLength := (second % 128) as nat;
      state := if payloadLength < 0x7E then STATE_WAIT_PAYLOAD else STATE_WAIT_LENGTH;
    }

    /** The part of `addData` after the header bytes; the result is where it stopped. */
    method AddLength(buffer: array<byte>, offset: nat) returns (end: Result<nat, nat>)
      requires offset <= buffer.Length && Receiving() && state != STATE_NEW
      modifies this
      ensures Realizes(Parse(old(Progress()), buffer[offset..]), buffer, end)
      ensures end.Success? ==> end.value >= offset
      ensures state == STATE_DONE ==> payload != null && fresh(payload)
    {
      if state == STATE_WAIT_PAYLOAD {
        end := AddPayload(buffer, offset);
        return end;
      }
      var lengthBytes := if payloadLength == 0x7F then 8 else 2;
      if buffer.Length - offset < lengthBytes { return Success(offset); }
      var ok := TakeLength(buffer, offset, lengthBytes);
      if !ok { return Failure(TOO_BIG); }
      assert buffer[offset..][lengthBytes..] == buffer[offset + lengthBytes..];
      end := AddPayload(buffer, offset + lengthBytes);
    }

    /** The extended length; false when it does not fit in four bytes. */
    method TakeLength(buffer: array<byte>, offset: nat, n: nat) returns (ok: bool)
      requires offset + n <= buffer.Length && n == if payloadLength == 0x7F then 8 else 2
      requires state == STATE_WAIT_LENGTH
      modifies this
      ensures ok == !(n == 8 && buffer[offset..][..4] != [0, 0, 0, 0])
      ensures ok ==> state == STATE_WAIT_PAYLOAD
                     && Progress() == WaitPayload(old(fin), old(opcode), BigEndian(buffer[offset..][..n]))
      ensures !ok ==> state == STATE_WAIT_LENGTH
    {
      var length := ReadLength(buffer, offset, n);
      if length == None { return false; }
      payloadLength := length.value;
      state := STATE_WAIT_PAYLOAD;
      return true;
    }

    /** The part of `addData` after the length bytes. */
    method AddPayload(buffer: array<byte>, offset: nat) returns (end: Result<nat, nat>)
      requires offset <= buffer.Length && state == STATE_WAIT_PAYLOAD
      modifies this
      ensures Realizes(Parse(old(Progress()), buffer[offset..]), buffer, end)
      ensures end.Success? ==> end.value >= offset
      ensures state == STATE_DONE ==> payload != null && fresh(payload)
    {
      if buffer.Length - offset < 4 + payloadLength { return Success(offset); }
      ghost var data := buffer[offset..];
      assert data[..4] == buffer[offset..offset + 4];
      assert data[4..4 + payloadLength] == buffer[offset + 4..offset + 4 + payloadLength];
      assert data[4 + payloadLength..] == buffer[offset + 4 + payloadLength..];
      payload := Unmask(buffer, offset, payloadLength);
      state := STATE_DONE;
      return Success(offset + 4 + payloadLength);
    }

    /** The bytes of an unmasked final frame, or an error for more than MAX_PAYLOAD bytes. */
    method ToBuffer() returns (r: Option<array<byte>>)
      requires opcode < 16
      ensures r.Some? ==> fresh(r.value)
      ensures var p := if payload == null then [] else payload[..];
              if |p| > MAX_PAYLOAD then r == None else r.Some? && r.value[..] == ServerFrame(opcode, p)
    {
      var length := if payload == null then 0 else payload.Length;
      var dataOffset := 2;
      if length > 125 { dataOffset := dataOffset + 2; }
      if length > 0xFFFF { dataOffset := dataOffset + 6; }

      if length > MAX_PAYLOAD { return None; }
      var buffer := NewBuffer(dataOffset + length);
      WriteHead(buffer, opcode, length, dataOffset);
      if payload != null {
        CopyFrom(buffer, payload, 0, dataOffset);
      }
      return Some(buffer);
    }
  }

  /** Reads `n` big-endian length bytes; None when an eight-byte length needs its upper half. */
  method ReadLength(buffer: array<byte>, offset: nat, n: nat) returns (r: Option<nat>)
    requires n in {2, 8} && offset + n <= buffer.Length
    ensures r == if n == 8 && buffer[offset..][..4] != [0, 0, 0, 0] then None
                 else Some(BigEndian(buffer[offset..][..n]))
  {
    ghost var field := buffer[offset..][..n];
    var length := 0;
    for i := 0 to n
      invariant length == BigEndian(field[..i]) * Pow256(n - i)
      invariant n == 8 ==> forall j :: 0 <= j < i && j < 4 ==> field[j] == 0
    {
      var value := buffer[offset + i];
      assert value == field[i];
      if n == 8 && value != 0 && i < 4 {
        assert buffer[offset..][..4][i] != 0;
        return None;
      }
      LengthStep(field, i, n);
      length := length + value as nat * Pow256(n - i - 1);
    }
    assert field[..n] == field;
    assert n == 8 ==> buffer[offset..][..4] == field[..4] == [0, 0, 0, 0];
    return Some(length);
  }

  /** Writes the header and length bytes of a server frame. */
  method WriteHead(buffer: array<byte>, opcode: byte, length: nat, dataOffset: nat)
    requires opcode < 16 && dataOffset == 2 + |ExtendedLength(length)| <= buffer.Length
    modifies buffer
    ensures buffer[..dataOffset] == [0x80 + opcode, Length7(length)] + ExtendedLength(length)
  {
    buffer[0] := 0x80 + opcode;
    if length > 125 {
      buffer[1] := if length > 0xFFFF then 0x7F else 0x7E;
      ghost var two := buffer[..2];
      WriteLength(buffer, length, if length > 0xFFFF then 8 else 2);
      assert buffer[..dataOffset] == two + ExtendedLength(length);
    } else {
      buffer[1] := length as byte;
    }
  }

  /** Writes `length` after the two header bytes, last byte first. */
  method WriteLength(buffer: array<byte>, length: nat, n: nat)
    requires 2 + n <= buffer.Length
    modifies buffer
    ensures buffer[2..2 + n] == BigEndianBytes(length, n)
    ensures buffer[..2] == old(buffer[..2]) && buffer[2 + n..] == old(buffer[2 + n..])
  {
    var v := length;
    for i := n downto 0
      invariant v >= 0 && buffer[..2] == old(buffer[..2]) && buffer[2 + n..] == old(buffer[2 + n..])
      invariant BigEndianBytes(length, n) == BigEndianBytes(v, i) + buffer[2 + i..2 + n]
    {
      var part := v % 256;
      ghost var tail := buffer[2 + i + 1..2 + n];
      buffer[2 + i] := part as byte;
      assert buffer[2 + i..2 + n] == [LowByte(v)] + tail;
      v := (v - part) / 256;
    }
  }

  /** A fresh buffer with the `n` bytes after the four key bytes at `maskOffset`, unmasked. */
  method Unmask(buffer: array<byte>, maskOffset: nat, n: nat) returns (p: array<byte>)
    requires maskOffset + 4 + n <= buffer.Length
    ensures fresh(p)
    ensures p[..] == Masked(buffer[maskOffset..maskOffset + 4], buffer[maskOffset + 4..maskOffset + 4 + n])
  {
    p := NewBuffer(n);
    var offset := maskOffset + 4;
    for i := 0 to n
      invariant offset == maskOffset + 4 + i
      invariant forall j :: 0 <= j < i ==> p[j] == Xor(buffer[maskOffset + 4 + j], buffer[maskOffset + j % 4])
    {
      p[i] := Xor(buffer[offset], buffer[maskOffset + i % 4]);
      offset := offset + 1;
    }
  }

  lemma LengthStep(field: seq<byte>, i: nat, n: nat)
    requires i < n == |field|
    ensures BigEndian(field[..i]) * Pow256(n - i) + field[i] as nat * Pow256(n - i - 1)
         == BigEndian(field[..i + 1]) * Pow256(n - i - 1)
  {
    assert field[..i + 1][..i] == field[..i];
    var p := Pow256(n - i - 1);
    assert Pow256(n - i) == 256 * p;
    assert BigEndian(field[..i + 1]) == 256 * BigEndian(field[..i]) + field[i] as nat;
  }
}
