/** The server side of one client: the socket, the receiving loop over real buffers, and the
    partial-send loop. Each method is tied to the functions of WebSocketConnection. */
module WebSocketServer {
  import opened Basics
  import opened Buffers
  import opened WebSocketFrame
  import opened WebSocketConnection
  import opened WebSocketWire

  /** A non-blocking socket. `accepts` is what the operating system will do with the next calls:
      0 blocks, k takes at most k bytes; afterwards everything is taken. */
  class Socket {
    var wire: seq<byte>
    var accepts: seq<nat>

    constructor (accepts: seq<nat>)
      ensures wire == [] && this.accepts == accepts
    {
      wire, this.accepts := [], accepts;
    }

    /** The number of bytes taken, or None when the call would block. */
    method Send(data: array<byte>) returns (sent: Option<nat>)
      requires data.Length > 0
      modifies this
      ensures |accepts| < |old(accepts)| || (accepts == old(accepts) == [] && sent == Some(data.Length))
      ensures sent == None ==> wire == old(wire)
      ensures sent.Some? ==> 0 < sent.value <= data.Length && wire == old(wire) + data[..sent.value]
    {
      var k := data.Length;
      if accepts != [] {
        k := Min(accepts[0], data.Length);
        accepts := accepts[1..];
      }
      if k == 0 { return None; }
      wire := wire + data[..k];
      return Some(k);
    }
  }

  /** The loop of `send`: whatever the socket accepts at a time, the frame goes out once and in
      order. */
  method SendFrame(socket: Socket, frame: Frame) returns (ok: bool)
    requires frame.opcode < 16
    modifies socket
    ensures var p := if frame.payload == null then [] else old(frame.payload[..]);
            && (ok <==> |p| <= MAX_PAYLOAD)
            && socket.wire == old(socket.wire) + if ok then ServerFrame(frame.opcode, p) else []
  {
    var bytes := frame.ToBuffer();
    if bytes == None { return false; }
    var buffer := bytes.value;
    ghost var all := buffer[..];
    var remain := buffer.Length;
    while true
      invariant remain == buffer.Length > 0
      invariant socket.wire + buffer[..] == old(socket.wire) + all
      decreases remain + |socket.accepts|
    {
      ghost var before := socket.wire;
      var sent := socket.Send(buffer);
      if sent == None { continue; }
      AppendAssociates(before, buffer[..sent.value], buffer[sent.value..]);
      assert buffer[..] == buffer[..sent.value] + buffer[sent.value..];
      remain := remain - sent.value;
      if remain == 0 { break; }
      buffer := Tail(buffer, sent.value);
    }
    return true;
  }

  /** UTF-8 encoding is a native function. */
  type Encoder = string -> seq<byte>

  /** `send`: text goes out as a text frame, a buffer as a binary frame. */
  method Send(socket: Socket, data: Message, encode: Encoder) returns (ok: bool)
    modifies socket
    ensures var p := match data case Text(chars) => encode(chars) case Binary(bytes) => bytes;
            && (ok <==> |p| <= 0xFFFF_FFFF)
            && (ok ==> socket.wire == old(socket.wire) + ([if data.Text? then 0x81 else 0x82] + LengthBytes(0, |p|) + p))
            && (!ok ==> socket.wire == old(socket.wire))
  {
    var frame := new Frame();
    var bytes;
    match data {
      case Text(chars) => frame.opcode, bytes := TEXT, encode(chars);
      case Binary(b) => frame.opcode, bytes := BINARY, b;
    }
    frame.payload := new byte[|bytes|](i requires 0 <= i < |bytes| => bytes[i]);
    assert frame.payload[..] == bytes;
    ok := SendFrame(socket, frame);
    if ok {
      ServerFrameIs(frame.opcode, bytes);
    } else {
      AppendNothing(old(socket.wire));
    }
  }

  class Connection {
    const decode: Decoder
    var open: bool
    var buffer: array?<byte>
    var frame: Frame
    var payload: array?<byte>
    var payloadType: byte
    var log: seq<Event>

    constructor (decode: Decoder)
      ensures Valid() && Abs() == Opened() && this.decode == decode
      ensures fresh(frame)
    {
      this.decode := decode;
      open, buffer, payload, payloadType, log := true, null, null, 0, [];
      frame := new Frame();
    }

    ghost predicate Valid()
      reads this, frame
    {
      && (open ==> frame.Receiving())
      && (buffer != null ==> buffer.Length > 0)
    }

    ghost function Bytes(a: array?<byte>): seq<byte>
      reads a
    {
      if a == null then [] else a[..]
    }

    ghost function Partial(): Option<seq<byte>>
      reads this, payload
    {
      if payload == null then None else Some(payload[..])
    }

    /** The connection as a value. */
    ghost function Abs(): Conn
      reads this, frame, buffer, payload
    {
      Seal(Conn(open, Bytes(buffer), frame.Progress(), Partial(), payloadType, log))
    }

    /** The assembler and the log, which `_processFrame` works on. */
    ghost function Core(): Conn
      reads this, payload
    {
      Conn(open, [], Fresh, Partial(), payloadType, log)
    }

    method Disconnect(code: nat)
      modifies this`open, this`log
      ensures Core() == WebSocketConnection.Disconnect(old(Core()), code)
    {
      if !open { return; }
      open := false;
      log := log + [Closed(if code == 0 then NO_STATUS else code)];
    }

    method Finalize() returns (thrown: Option<nat>)
      requires payload != null
      modifies this`log, this`payload
      ensures Outcome(thrown, WebSocketConnection.Finalize(old(Core()), decode))
    {
      var message := Message.Binary(payload[..]);
      if payloadType == TEXT {
        var chars := decode(payload[..]);
        if chars == None { return Some(BAD_DATA); }
        message := Message.Text(chars.value);
      }
      log := log + [Delivered(message)];
      payload := null;
      return None;
    }

    /** The object is in the state of `step`, and `thrown` is its exception. */
    ghost predicate Outcome(thrown: Option<nat>, step: Step)
      reads this, payload
    {
      Core() == step.conn && thrown == if step.Threw? then Some(step.code) else None
    }

    method ProcessFrame(done: Frame, ghost f: WireFrame) returns (thrown: Option<nat>)
      requires done.IsDone(f) && done.payload != null
      modifies this`open, this`log, this`payload, this`payloadType
      ensures Outcome(thrown, Process(old(Core()), f, decode))
    {
      if done.opcode == CONTINUATION {
        if payload == null { return Some(PROTOCOL_ERROR); }
        if done.payload.Length > 0 {
          payload := Joined(payload, done.payload);
        } else {
          assert done.payload[..] == [];
          AppendNothing(payload[..]);
        }
        if done.fin { thrown := Finalize(); return thrown; }
      } else if done.opcode == TEXT || done.opcode == BINARY {
        if payload != null { return Some(PROTOCOL_ERROR); }
        payload, payloadType := done.payload, done.opcode;
        if done.fin { thrown := Finalize(); return thrown; }
      } else if done.opcode == CLOSE {
        var code := 0;
        if payload != null {
          if payload.Length < 2 { return Some(PROTOCOL_ERROR); }
          code := payload[0] as nat * 0x100 + payload[1] as nat;
        }
        Disconnect(code);
      } else if done.opcode == PING {
        var response := new Frame();
        response.opcode, response.payload := PONG, done.payload;
        var bytes := response.ToBuffer();
        if !open || bytes == None { return Some(NO_CODE); }
        log := log + [Sent(bytes.value[..])];
      }
      return None;
    }

    /** The connection between two frames of the receiving loop, `rest` being what is not parsed. */
    ghost function At(rest: seq<byte>): Conn
      reads this, frame, payload
    {
      Core().(frame := frame.Progress(), buffer := rest)
    }

    /** A finished frame: handled, or the connection closed with the code of the exception. */
    method HandleFrame(done: Frame, ghost f: WireFrame) returns (thrown: bool)
      requires done.IsDone(f) && done.payload != null
      modifies this`open, this`log, this`payload, this`payloadType
      ensures var step := Process(old(Core()), f, decode);
              && thrown == step.Threw?
              && Core() == if thrown then WebSocketConnection.Disconnect(step.conn, step.code) else step.conn
    {
      var code := ProcessFrame(done, f);
      if code.Some? {
        Disconnect(code.value);
      }
      return code.Some?;
    }

    /** One turn of the receiving loop. */
    method Turn(data: array<byte>, offset: nat) returns (next: nat, again: bool, thrown: bool)
      requires offset <= data.Length && frame.Receiving()
      modifies this, frame
      ensures offset <= next <= data.Length && frame.Receiving() && buffer == old(buffer)
      ensures frame == old(frame) || fresh(frame)
      ensures thrown ==> !again && !open
      ensures var goal := Drain(old(At([])), old(data[offset..]), decode);
              if again then offset < next && goal == Drain(At([]), data[next..], decode)
              else Seal(goal) == Seal(At(data[next..]))
    {
      ghost var c, rest, o := Core(), data[offset..], Parse(frame.Progress(), data[offset..]);
      ghost var goal := Drain(At([]), rest, decode);
      assert goal == After(c, o, decode) by { DrainParses(At([]), rest, decode); }
      hide Drain;
      hide Parse;
      ParseConsumes(frame.Progress(), rest);
      var used := frame.AddData(data, offset);
      if used.Failure? {
        Disconnect(used.error);
        frame := new Frame();
        DisconnectCloses(c, used.error);
        assert goal == Core();
        return offset, false, true;
      }
      next := offset + used.value;
      if frame.state != STATE_DONE {
        assert goal == At(data[next..]);
        return next, false, false;
      }
      thrown := HandleFrame(frame, o.frame);
      frame := new Frame();
      again := !thrown && next < data.Length;
      AfterDone(c, o, decode);
      assert o.rest == data[next..];
      assert Core() == At([]);
      assert !again ==> goal == Core();
    }

    /** `_processSocket` once the bytes have been received. */
    method ProcessSocket(received: array<byte>)
      requires Valid()
      modifies this, frame
      ensures Valid() && Abs() == Receive(old(Abs()), received[..], decode)
    {
      if !open || received.Length == 0 { return; }
      var data := received;
      if buffer != null {
        data := Joined(buffer, received);
        buffer := null;
      } else {
        AppendNothing(received[..]);
      }
      ghost var goal := Drain(At([]), data[..], decode);
      assert Abs() == At([]);
      assert Receive(old(Abs()), received[..], decode) == Seal(goal);
      var offset, again, thrown := 0, true, false;
      assert data[0..] == data[..];
      while again
        invariant 0 <= offset <= data.Length && buffer == null && frame.Receiving()
        invariant frame == old(frame) || fresh(frame)
        invariant thrown ==> !open
        invariant if again then goal == Drain(At([]), data[offset..], decode) else Seal(goal) == Seal(At(data[offset..]))
        decreases again, data.Length - offset
      {
        offset, again, thrown := Turn(data, offset);
      }
      if !thrown && offset < data.Length {
        buffer := Tail(data, offset);
      }
    }
  }

  /** How the loop goes on after a finished frame. */
  lemma AfterDone(c: Conn, o: Outcome, decode: Decoder)
    ensures o.Done? ==>
              var step := Process(c, o.frame, decode);
              if step.Threw? then After(c, o, decode) == Disconnect(step.conn, step.code) && !After(c, o, decode).open
              else After(c, o, decode) == if o.rest == [] then step.conn else Drain(step.conn, o.rest, decode)
  {
  }

  lemma DrainParses(c: Conn, data: seq<byte>, decode: Decoder)
    ensures Drain(c, data, decode) == After(c.(frame := Fresh), Parse(c.frame, data), decode)
  {
  }

  lemma DisconnectCloses(c: Conn, code: nat)
    ensures !WebSocketConnection.Disconnect(c, code).open
  {
  }
}
