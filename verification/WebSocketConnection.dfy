/** What a connection does with the bytes it receives. */
module WebSocketConnection {
  import opened Basics
  import opened Buffers
  import opened WebSocketFrame

  // A connection is a function of the byte chunks: carry-over buffer and fragment assembler (sections 5.4
  // and 5.5 of RFC 6455). The theorem is that delivery does not depend on how the stream is cut.

  const BAD_DATA: nat := 1007
  const NO_STATUS: nat := 1005
  const NO_CODE: nat := 0     // an exception that is not a ProtocolError

  const CONTINUATION: byte := 0x0
  const TEXT: byte := 0x1
  const BINARY: byte := 0x2
  const CLOSE: byte := 0x8
  const PING: byte := 0x9
  const PONG: byte := 0xA

  datatype Message = Text(chars: string) | Binary(bytes: seq<byte>)

  /** What the application and the peer observe: a message handed to `onmessage`, bytes written to
      the socket, and the one `ondisconnect`. */
  datatype Event = Delivered(message: Message) | Sent(bytes: seq<byte>) | Closed(code: nat)

  /** UTF-8 decoding is a native partial function. */
  type Decoder = seq<byte> -> Option<string>

  datatype Conn = Conn(
    open: bool, buffer: seq<byte>, frame: Progress,
    payload: Option<seq<byte>>, payloadType: byte, log: seq<Event>)

  datatype Step = Next(conn: Conn) | Threw(conn: Conn, code: nat)

  function Opened(): Conn {
    Conn(true, [], Fresh, None, 0, [])
  }

  function Emit(c: Conn, e: Event): Conn {
    c.(log := c.log + [e])
  }

  function Disconnect(c: Conn, code: nat): Conn {
    if c.open then Emit(c.(open := false), Closed(if code == 0 then NO_STATUS else code)) else c
  }

  function Finalize(c: Conn, decode: Decoder): Step
    requires c.payload.Some?
  {
    if c.payloadType == TEXT then
      match decode(c.payload.value)
      case None => Threw(c, BAD_DATA)
      case Some(chars) => Next(Emit(c, Delivered(Text(chars))).(payload := None))
    else
      Next(Emit(c, Delivered(Binary(c.payload.value))).(payload := None))
  }

  /** `_processFrame`. A close frame takes its code from the partial message, as the code does; a
      send on the closed socket raises an exception without a code. */
  function Process(c: Conn, f: WireFrame, decode: Decoder): Step {
    if f.opcode == CONTINUATION then
      match c.payload
      case None => Threw(c, PROTOCOL_ERROR)
      case Some(p) =>
        var c' := c.(payload := Some(p + f.payload));
        if f.fin then Finalize(c', decode) else Next(c')
    else if f.opcode == TEXT || f.opcode == BINARY then
      if c.payload.Some? then Threw(c, PROTOCOL_ERROR)
      else
        var c' := c.(payload := Some(f.payload), payloadType := f.opcode);
        if f.fin then Finalize(c', decode) else Next(c')
    else if f.opcode == CLOSE then
      match c.payload
      case None => Next(Disconnect(c, 0))
      case Some(p) =>
        if |p| < 2 then Threw(c, PROTOCOL_ERROR)
        else Next(Disconnect(c, p[0] as nat * 0x100 + p[1] as nat))
    else if f.opcode == PING then
      if !c.open || |f.payload| > MAX_PAYLOAD then Threw(c, NO_CODE)
      else Next(Emit(c, Sent(ServerFrame(PONG, f.payload))))
    else
      Next(c)
  }

  /** The parsing loop over the merged data. */
  function Drain(c: Conn, data: seq<byte>, decode: Decoder): Conn
    decreases 2 * |data| + 1
  {
    ParseConsumes(c.frame, data);
    After(c.(frame := Fresh), Parse(c.frame, data), decode)
  }

  /** The rest of the loop once the parser has stopped with `outcome`. */
  function After(c: Conn, outcome: Outcome, decode: Decoder): Conn
    decreases if outcome.Done? then 2 * |outcome.rest| + 2 else 0
  {
    match outcome
    case Rejected(code) => Disconnect(c, code)
    case Pending(progress, rest) => c.(frame := progress, buffer := rest)
    case Done(frame, rest) =>
      match Process(c, frame, decode)
      case Threw(c', code) => Disconnect(c', code)
      case Next(c') => if rest == [] then c' else Drain(c', rest, decode)
  }

  /** A closed client is dropped, so its parsing state no longer matters. */
  function Seal(c: Conn): Conn {
    if c.open then c else Conn(false, [], Fresh, None, 0, c.log)
  }

  /** One readable-socket notification with `chunk` as the received bytes. */
  function Receive(c: Conn, chunk: seq<byte>, decode: Decoder): Conn {
    if !c.open || chunk == [] then c else Seal(Drain(c.(buffer := []), c.buffer + chunk, decode))
  }

  function ReceiveAll(c: Conn, chunks: seq<seq<byte>>, decode: Decoder): Conn
    decreases |chunks|
  {
    if chunks == [] then c else ReceiveAll(Receive(c, chunks[0], decode), chunks[1..], decode)
  }

  // ------------------------------------------------------------- invariants

  /** Nothing is closed in the log while the connection is open, and the carry-over buffer holds
      exactly what the pending frame cannot use yet. */
  ghost predicate Idle(c: Conn) {
    && OpenMatchesLog(c)
    && (c.open ==> Parse(c.frame, c.buffer) == Pending(c.frame, c.buffer))
  }

  /** The log up to and including the first disconnection. */
  function UpToClose(log: seq<Event>): seq<Event> {
    if log == [] then [] else if log[0].Closed? then [log[0]] else [log[0]] + UpToClose(log[1..])
  }

  lemma {:induction false} UpToCloseExtends(log: seq<Event>, more: seq<Event>)
    ensures HasClose(log) ==> UpToClose(log + more) == UpToClose(log)
  {
    if log != [] {
      assert (log + more)[1..] == log[1..] + more;
      if !log[0].Closed? {
        UpToCloseExtends(log[1..], more);
        if HasClose(log) {
          var i :| 0 <= i < |log| && log[i].Closed?;
          assert log[1..][i - 1].Closed?;
        }
      }
    }
  }

  ghost predicate OpenMatchesLog(c: Conn) {
    c.open <==> !HasClose(c.log)
  }

  ghost predicate HasClose(log: seq<Event>) {
    exists i :: 0 <= i < |log| && log[i].Closed?
  }

  lemma EmitClose(log: seq<Event>)
    ensures forall e :: HasClose(log + [e]) <==> HasClose(log) || e.Closed?
  {
    forall e ensures HasClose(log + [e]) <==> HasClose(log) || e.Closed? {
      var more := log + [e];
      if HasClose(log) {
        var i :| 0 <= i < |log| && log[i].Closed?;
        assert more[i].Closed?;
      }
      if e.Closed? {
        assert more[|log|].Closed?;
      }
    }
  }

  /** The connection only ever appends to its log, and `open` says whether it contains a close. */
  ghost predicate Grows(c: Conn, c': Conn) {
    c.log <= c'.log && (OpenMatchesLog(c) ==> OpenMatchesLog(c'))
  }

  lemma ProcessGrows(c: Conn, f: WireFrame, decode: Decoder)
    ensures Grows(c, Process(c, f, decode).conn)
    ensures Process(c, f, decode).conn.buffer == c.buffer && Process(c, f, decode).conn.frame == c.frame
  {
    DisconnectGrows(c, 0);
    if f.opcode == CLOSE && c.payload.Some? && |c.payload.value| >= 2 {
      DisconnectGrows(c, c.payload.value[0] as nat * 0x100 + c.payload.value[1] as nat);
    } else if f.opcode == PING {
      EmitGrows(c, Sent(ServerFrame(PONG, f.payload)));
    } else if f.opcode in {CONTINUATION, TEXT, BINARY} {
      var p := if c.payload.Some? then c.payload.value + f.payload else f.payload;
      FinalizeGrows(c.(payload := Some(p)), decode);
      FinalizeGrows(c.(payload := Some(p), payloadType := f.opcode), decode);
    }
  }

  lemma FinalizeGrows(c: Conn, decode: Decoder)
    requires c.payload.Some?
    ensures var c' := Finalize(c, decode).conn; Grows(c, c') && c'.buffer == c.buffer && c'.frame == c.frame
  {
    EmitClose(c.log);
  }

  lemma EmitGrows(c: Conn, e: Event)
    requires !e.Closed?
    ensures Grows(c, Emit(c, e))
  {
    EmitClose(c.log);
  }

  lemma DisconnectGrows(c: Conn, code: nat)
    ensures Grows(c, Disconnect(c, code))
  {
    EmitClose(c.log);
  }

  lemma {:induction false} DrainGrows(c: Conn, data: seq<byte>, decode: Decoder)
    ensures Grows(c, Drain(c, data, decode))
    decreases 2 * |data| + 1
  {
    ParseConsumes(c.frame, data);
    AfterGrows(c.(frame := Fresh), Parse(c.frame, data), decode);
  }

  lemma {:induction false} AfterGrows(c: Conn, o: Outcome, decode: Decoder)
    ensures Grows(c, After(c, o, decode))
    decreases if o.Done? then 2 * |o.rest| + 2 else 0
  {
    EmitClose(c.log);
    if o.Done? {
      ProcessGrows(c, o.frame, decode);
      var step := Process(c, o.frame, decode);
      EmitClose(step.conn.log);
      if step.Next? && o.rest != [] {
        DrainGrows(step.conn, o.rest, decode);
      }
    }
  }

  lemma ClosedLogsAgree(c: Conn, d: Conn, e: Conn)
    requires OpenMatchesLog(c) && !c.open && Grows(c, d) && Grows(c, e)
    ensures !d.open && !e.open && UpToClose(d.log) == UpToClose(e.log)
  {
    var i :| 0 <= i < |c.log| && c.log[i].Closed?;
    assert d.log[i].Closed? && e.log[i].Closed?;
    assert d.log == c.log + d.log[|c.log|..] && e.log == c.log + e.log[|c.log|..];
    UpToCloseExtends(c.log, d.log[|c.log|..]);
    UpToCloseExtends(c.log, e.log[|c.log|..]);
  }

  // ------------------------------------------------- independence of the split

  /** Two outcomes that nobody on either side of the connection can tell apart before the close:
      while open they agree completely. */
  ghost predicate SameUntilClose(d: Conn, e: Conn) {
    d.open == e.open && (if d.open then d == e else UpToClose(d.log) == UpToClose(e.log))
  }

  /** Draining `a + b` at once is draining `a` and then what it left followed by `b`. */
  ghost predicate Continues(d: Conn, whole: Conn, b: seq<byte>, decode: Decoder) {
    && (d.open ==> whole == Drain(d.(buffer := []), d.buffer + b, decode))
    && (!d.open ==> SameUntilClose(d, whole))
  }

  lemma {:induction false} DrainSplit(c: Conn, a: seq<byte>, b: seq<byte>, decode: Decoder)
    requires OpenMatchesLog(c) && c.open && c.buffer == []
    ensures Continues(Drain(c, a, decode), Drain(c, a + b, decode), b, decode)
    decreases 2 * |a| + 1
  {
    ParseConsumes(c.frame, a);
    ParseResumes(c.frame, a, b);
    AfterSplit(c.(frame := Fresh), Parse(c.frame, a), b, decode);
  }

  lemma {:induction false} AfterSplit(c: Conn, o: Outcome, b: seq<byte>, decode: Decoder)
    requires OpenMatchesLog(c) && c.open && c.buffer == [] && c.frame == Fresh
    ensures Continues(After(c, o, decode), After(c, Resume(o, b), decode), b, decode)
    decreases if o.Done? then 2 * |o.rest| + 2 else 0
  {
    if o.Pending? {
      assert Resume(o, b) == Parse(o.progress, o.rest + b);
      var d := After(c, o, decode).(buffer := []);
      assert d.(frame := Fresh) == c;
    } else if o.Done? {
      ProcessGrows(c, o.frame, decode);
      var step := Process(c, o.frame, decode);
      if step.Next? {
        NextSplit(c, step.conn, o, b, decode);
      } else {
        EmitClose(step.conn.log);
      }
    }
  }

  lemma {:induction false} NextSplit(c: Conn, c': Conn, o: Outcome, b: seq<byte>, decode: Decoder)
    requires OpenMatchesLog(c) && OpenMatchesLog(c') && c'.buffer == [] && c'.frame == Fresh
    requires o.Done? && Process(c, o.frame, decode) == Next(c')
    ensures Continues(After(c, o, decode), After(c, Resume(o, b), decode), b, decode)
    decreases 2 * |o.rest| + 2, 0
  {
    var d, whole := After(c, o, decode), After(c, Done(o.frame, o.rest + b), decode);
    if o.rest == [] && b == [] {
      assert d == whole == c';
    } else if o.rest == [] {
      assert o.rest + b == b && d == c' && whole == Drain(c', b, decode);
    } else {
      assert d == Drain(c', o.rest, decode) && whole == Drain(c', o.rest + b, decode);
    }
    if !c'.open {
      DrainGrows(c', o.rest, decode);
      DrainGrows(c', o.rest + b, decode);
      ClosedLogsAgree(c', d, whole);
    } else if o.rest != [] {
      DrainSplit(c', o.rest, b, decode);
    } else {
      assert c'.(buffer := []) == c' && c'.buffer + b == b;
      assert Drain(c', [], decode) == c';
    }
  }

  lemma {:induction false} DrainStaysIdle(c: Conn, data: seq<byte>, decode: Decoder)
    requires OpenMatchesLog(c) && c.buffer == []
    ensures Idle(Drain(c, data, decode))
    decreases |data|
  {
    DrainGrows(c, data, decode);
    ParseConsumes(c.frame, data);
    var o := Parse(c.frame, data);
    if o.Done? {
      var base := c.(frame := Fresh);
      ProcessGrows(base, o.frame, decode);
      var step := Process(base, o.frame, decode);
      if step.Next? && o.rest != [] {
        DrainStaysIdle(step.conn, o.rest, decode);
      }
    }
  }

  lemma ReceiveStaysIdle(c: Conn, chunk: seq<byte>, decode: Decoder)
    requires Idle(c)
    ensures Idle(Receive(c, chunk, decode))
  {
    if c.open {
      DrainStaysIdle(c.(buffer := []), c.buffer + chunk, decode);
    }
  }

  /** Two notifications do what one notification with both chunks does. */
  lemma ReceiveTwice(c: Conn, a: seq<byte>, b: seq<byte>, decode: Decoder)
    requires Idle(c)
    ensures SameUntilClose(Receive(Receive(c, a, decode), b, decode), Receive(c, a + b, decode))
  {
    if c.open {
      if a == [] || b == [] {
        assert a + b == if a == [] then b else a;
      } else {
        assert c.buffer + (a + b) == c.buffer + a + b;
        DrainSplit(c.(buffer := []), c.buffer + a, b, decode);
      }
    }
  }

  lemma {:induction false} SameUntilCloseContinues(d: Conn, e: Conn, chunks: seq<seq<byte>>, decode: Decoder)
    requires SameUntilClose(d, e)
    ensures SameUntilClose(ReceiveAll(d, chunks, decode), ReceiveAll(e, chunks, decode))
    decreases |chunks|
  {
    if chunks != [] {
      SameUntilCloseContinues(Receive(d, chunks[0], decode), Receive(e, chunks[0], decode), chunks[1..], decode);
    }
  }

  /** Delivery is independent of the split: any cut of a byte stream into chunks leads to the state
      and the events of one chunk holding all of it, up to the first disconnection. */
  lemma {:induction false} SplitIndependence(c: Conn, chunks: seq<seq<byte>>, decode: Decoder)
    requires Idle(c)
    ensures SameUntilClose(ReceiveAll(c, chunks, decode), Receive(c, Flatten(chunks), decode))
    decreases |chunks|
  {
    if |chunks| == 1 {
      assert Flatten(chunks) == chunks[0] + [] == chunks[0];
      assert ReceiveAll(c, chunks, decode) == ReceiveAll(Receive(c, chunks[0], decode), [], decode);
    } else if |chunks| > 1 {
      var merged := [chunks[0] + chunks[1]] + chunks[2..];
      SplitIndependence(c, merged, decode);
      assert chunks[1..][1..] == chunks[2..] == merged[1..];
      assert Flatten(merged) == Flatten(chunks);
      ReceiveTwice(c, chunks[0], chunks[1], decode);
      var d := Receive(Receive(c, chunks[0], decode), chunks[1], decode);
      var e := Receive(c, merged[0], decode);
      SameUntilCloseContinues(d, e, chunks[2..], decode);
      assert ReceiveAll(c, chunks, decode) == ReceiveAll(d, chunks[2..], decode);
    }
  }
}
