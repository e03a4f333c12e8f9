/** End to end: `onmessage` sees exactly the messages that a client sends. */
module WebSocketDelivery {
  import opened Basics
  import opened Buffers
  import opened WebSocketFrame
  import opened WebSocketConnection

  // The messages may be fragmented, masked and interleaved with control frames, and the bytes cut anywhere
  // on the way.

  datatype Control = Ping(data: seq<byte>) | Pong(data: seq<byte>)

  /** A fragment of a message and the control frames sent just before it. */
  datatype Part = Part(controls: seq<Control>, data: seq<byte>)

  /** A text or binary message in one or more fragments. */
  datatype Script = Script(text: bool, parts: seq<Part>)

  // ------------------------------------------------------------ what is sent

  function ControlFrame(c: Control): WireFrame {
    match c
    case Ping(data) => WireFrame(true, PING, data)
    case Pong(data) => WireFrame(true, PONG, data)
  }

  function ControlFrames(cs: seq<Control>): (r: seq<WireFrame>)
    ensures forall i :: 0 <= i < |r| ==> r[i].opcode < 16
  {
    if cs == [] then [] else [ControlFrame(cs[0])] + ControlFrames(cs[1..])
  }

  /** The frames of the fragments `parts`, the first of which carries `opcode`. */
  function PartFrames(opcode: byte, parts: seq<Part>): (r: seq<WireFrame>)
    requires opcode < 16
    ensures forall i :: 0 <= i < |r| ==> r[i].opcode < 16
  {
    if parts == [] then []
    else
      ControlFrames(parts[0].controls)
      + [WireFrame(|parts| == 1, opcode, parts[0].data)]
      + PartFrames(CONTINUATION, parts[1..])
  }

  function ScriptFrames(s: Script): seq<WireFrame> {
    PartFrames(if s.text then TEXT else BINARY, s.parts)
  }

  function AllFrames(scripts: seq<Script>): (r: seq<WireFrame>)
    ensures forall i :: 0 <= i < |r| ==> r[i].opcode < 16
  {
    if scripts == [] then [] else ScriptFrames(scripts[0]) + AllFrames(scripts[1..])
  }

  ghost predicate Sendable(f: WireFrame) {
    |f.payload| <= MAX_PAYLOAD
  }

  /** The bytes of the frames, each masked with its own key. */
  function Stream(frames: seq<WireFrame>, keys: seq<seq<byte>>): seq<byte>
    requires |keys| == |frames|
    requires forall i :: 0 <= i < |keys| ==> |keys[i]| == 4
    requires forall i :: 0 <= i < |frames| ==> frames[i].opcode < 16
  {
    if frames == [] then [] else ClientFrame(frames[0], keys[0]) + Stream(frames[1..], keys[1..])
  }

  // -------------------------------------------------------- what is expected

  function Content(parts: seq<Part>): seq<byte> {
    if parts == [] then [] else parts[0].data + Content(parts[1..])
  }

  function Answers(cs: seq<Control>): seq<Event> {
    if cs == [] then []
    else (if cs[0].Ping? then [Sent(ServerFrame(PONG, cs[0].data))] else []) + Answers(cs[1..])
  }

  function PartAnswers(parts: seq<Part>): seq<Event> {
    if parts == [] then [] else Answers(parts[0].controls) + PartAnswers(parts[1..])
  }

  /** The decoded message, if a text message decodes. */
  function Decoded(s: Script, decode: Decoder): Option<Message> {
    if s.text then
      match decode(Content(s.parts))
      case None => None
      case Some(chars) => Some(Message.Text(chars))
    else Some(Binary(Content(s.parts)))
  }

  function Expected(scripts: seq<Script>, decode: Decoder): seq<Event>
    requires forall s :: s in scripts ==> Decoded(s, decode).Some?
  {
    if scripts == [] then []
    else
      PartAnswers(scripts[0].parts) + [Delivered(Decoded(scripts[0], decode).value)]
      + Expected(scripts[1..], decode)
  }

  // ------------------------------------------------------- frames, one by one

  /** `_processFrame` folded over whole frames, stopping at the first exception. */
  function Fold(c: Conn, frames: seq<WireFrame>, decode: Decoder): Step
    decreases |frames|, 0
  {
    if frames == [] then Next(c) else FoldOn(Process(c, frames[0], decode), frames[1..], decode)
  }

  function FoldOn(step: Step, frames: seq<WireFrame>, decode: Decoder): Step
    decreases |frames|, 1
  {
    if step.Threw? then step else Fold(step.conn, frames, decode)
  }

  lemma {:induction false} FoldAppend(c: Conn, a: seq<WireFrame>, b: seq<WireFrame>, decode: Decoder)
    requires Fold(c, a, decode).Next?
    ensures Fold(c, a + b, decode) == Fold(Fold(c, a, decode).conn, b, decode)
    decreases |a|
  {
    if a == [] {
      assert a + b == b;
    } else {
      assert (a + b)[1..] == a[1..] + b;
      FoldAppend(Process(c, a[0], decode).conn, a[1..], b, decode);
    }
  }

  /** The frames handled up to the first exception, which closes the connection. */
  function Handle(c: Conn, frames: seq<WireFrame>, decode: Decoder): Conn {
    match Fold(c, frames, decode)
    case Next(c') => c'
    case Threw(c', code) => Disconnect(c', code)
  }

  lemma HandleTurn(c: Conn, frames: seq<WireFrame>, decode: Decoder)
    ensures Handle(c, frames, decode) ==
            if frames == [] then c
            else
              match Process(c, frames[0], decode)
              case Threw(c', code) => Disconnect(c', code)
              case Next(c') => Handle(c', frames[1..], decode)
  {
    hide Process;
    if frames != [] {
      var step := Process(c, frames[0], decode);
      assert Fold(c, frames, decode) == FoldOn(step, frames[1..], decode);
      assert step.Next? ==> FoldOn(step, frames[1..], decode) == Fold(step.conn, frames[1..], decode);
    }
  }

  ghost predicate Valid(frames: seq<WireFrame>, keys: seq<seq<byte>>) {
    && |keys| == |frames| && (forall i :: 0 <= i < |keys| ==> |keys[i]| == 4)
    && forall i :: 0 <= i < |frames| ==> frames[i].opcode < 16 && Sendable(frames[i])
  }

  /** A stream of complete frames, received at once, is handled frame by frame. */
  lemma {:induction false} DrainStream(c: Conn, frames: seq<WireFrame>, keys: seq<seq<byte>>, decode: Decoder)
    requires Valid(frames, keys) && frames != [] && c.frame == Fresh
    ensures Drain(c, Stream(frames, keys), decode) == Handle(c, frames, decode)
    decreases |frames|
  {
    hide Handle;
    hide Process;
    hide Parse;
    HandleTurn(c, frames, decode);
    var rest := Stream(frames[1..], keys[1..]);
    ParseClientFrame(frames[0], keys[0], rest);
    assert c.(frame := Fresh) == c;
    ProcessGrows(c, frames[0], decode);
    var step := Process(c, frames[0], decode);
    assert Drain(c, Stream(frames, keys), decode) == After(c, Done(frames[0], rest), decode);
    if step.Next? && |frames| > 1 {
      assert |ClientFrame(frames[1], keys[1])| > 0;
      assert frames[1..][0] == frames[1] && keys[1..][0] == keys[1];
      DrainStream(step.conn, frames[1..], keys[1..], decode);
    } else if step.Next? {
      HandleTurn(step.conn, frames[1..], decode);
    }
  }

  // -------------------------------------------------------------- the messages

  lemma {:induction false} FoldControls(c: Conn, cs: seq<Control>, decode: Decoder)
    requires c.open && forall i :: 0 <= i < |cs| ==> |cs[i].data| <= MAX_PAYLOAD
    ensures Fold(c, ControlFrames(cs), decode) == Next(c.(log := c.log + Answers(cs)))
    decreases |cs|
  {
    if cs == [] {
      assert c.log + [] == c.log;
    } else {
      var answer := if cs[0].Ping? then [Sent(ServerFrame(PONG, cs[0].data))] else [];
      var c' := c.(log := c.log + answer);
      AppendNothing(c.log);
      assert Process(c, ControlFrame(cs[0]), decode) == Next(c');
      FoldControls(c', cs[1..], decode);
      AppendAssociates(c.log, answer, Answers(cs[1..]));
      FoldCons(c, ControlFrame(cs[0]), ControlFrames(cs[1..]), decode);
    }
  }

  lemma FoldCons(c: Conn, f: WireFrame, fs: seq<WireFrame>, decode: Decoder)
    ensures Fold(c, [f] + fs, decode) == FoldOn(Process(c, f, decode), fs, decode)
  {
    assert ([f] + fs)[1..] == fs;
  }

  ghost predicate Small(parts: seq<Part>) {
    forall i :: 0 <= i < |parts| ==>
      && |parts[i].data| <= MAX_PAYLOAD
      && forall j :: 0 <= j < |parts[i].controls| ==> |parts[i].controls[j].data| <= MAX_PAYLOAD
  }

  /** `bytes` received with frame type `kind` are the message `m`. */
  ghost predicate Means(kind: byte, bytes: seq<byte>, m: Message, decode: Decoder) {
    if kind == TEXT then m.Text? && decode(bytes) == Some(m.chars) else m == Binary(bytes)
  }

  /** The fragment assembler: after the fragments, the partial message has become one delivery. */
  lemma {:induction false} FoldParts(c: Conn, opcode: byte, parts: seq<Part>, sofar: seq<byte>, m: Message, decode: Decoder)
    requires c.open && parts != [] && Small(parts) && opcode < 16
    requires if opcode == CONTINUATION then c.payload == Some(sofar)
             else c.payload == None && sofar == [] && opcode in {TEXT, BINARY}
    requires Means(if opcode == CONTINUATION then c.payloadType else opcode, sofar + Content(parts), m, decode)
    ensures Fold(c, PartFrames(opcode, parts), decode)
         == Next(c.(payload := None, payloadType := if opcode == CONTINUATION then c.payloadType else opcode,
                    log := c.log + PartAnswers(parts) + [Delivered(m)]))
    decreases |parts|
  {
    var p := parts[0];
    var c1 := c.(log := c.log + Answers(p.controls));
    var bytes := sofar + p.data;
    var c2 := c1.(payload := Some(bytes), payloadType := if opcode == CONTINUATION then c.payloadType else opcode);
    FoldHead(c, p.controls, WireFrame(|parts| == 1, opcode, p.data), PartFrames(CONTINUATION, parts[1..]), decode);
    AppendAssociates(sofar, p.data, Content(parts[1..]));
    AppendNothing(p.data);
    AppendAssociates(c.log, Answers(p.controls), PartAnswers(parts[1..]));
    ProcessFragment(c1, |parts| == 1, opcode, p.data, bytes, decode);
    if |parts| == 1 {
      AppendNothing(bytes);
      AppendNothing(c1.log);
      FinalizeMeans(c2, m, decode);
    } else {
      FoldParts(c2, CONTINUATION, parts[1..], bytes, m, decode);
    }
  }

  lemma ProcessFragment(c: Conn, fin: bool, opcode: byte, data: seq<byte>, bytes: seq<byte>, decode: Decoder)
    requires if opcode == CONTINUATION then c.payload.Some? && c.payload.value + data == bytes
             else c.payload == None && data == bytes && opcode in {TEXT, BINARY}
    ensures var c' := c.(payload := Some(bytes), payloadType := if opcode == CONTINUATION then c.payloadType else opcode);
            Process(c, WireFrame(fin, opcode, data), decode) == if fin then Finalize(c', decode) else Next(c')
  {
  }

  lemma FinalizeMeans(c: Conn, m: Message, decode: Decoder)
    requires c.payload.Some? && Means(c.payloadType, c.payload.value, m, decode)
    ensures Finalize(c, decode) == Next(c.(payload := None, log := c.log + [Delivered(m)]))
  {
  }

  /** Control frames before a fragment are answered and leave the assembler alone. */
  lemma FoldHead(c: Conn, cs: seq<Control>, frame: WireFrame, tail: seq<WireFrame>, decode: Decoder)
    requires c.open && forall i :: 0 <= i < |cs| ==> |cs[i].data| <= MAX_PAYLOAD
    ensures Fold(c, ControlFrames(cs) + [frame] + tail, decode)
         == FoldOn(Process(c.(log := c.log + Answers(cs)), frame, decode), tail, decode)
  {
    FoldControls(c, cs, decode);
    FoldAppend(c, ControlFrames(cs), [frame] + tail, decode);
    assert ControlFrames(cs) + [frame] + tail == ControlFrames(cs) + ([frame] + tail);
    assert ([frame] + tail)[1..] == tail;
  }

  ghost predicate Good(s: Script, decode: Decoder) {
    s.parts != [] && Small(s.parts) && Decoded(s, decode).Some?
  }

  ghost predicate Wellformed(scripts: seq<Script>, decode: Decoder) {
    forall s :: s in scripts ==> Good(s, decode)
  }

  lemma FoldScript(c: Conn, s: Script, decode: Decoder)
    requires c.open && c.payload == None && Good(s, decode)
    ensures Fold(c, ScriptFrames(s), decode)
         == Next(c.(payloadType := if s.text then TEXT else BINARY,
                    log := c.log + PartAnswers(s.parts) + [Delivered(Decoded(s, decode).value)]))
  {
    assert [] + Content(s.parts) == Content(s.parts);
    FoldParts(c, if s.text then TEXT else BINARY, s.parts, [], Decoded(s, decode).value, decode);
  }

  lemma FoldTwo(c: Conn, a: seq<WireFrame>, c': Conn, b: seq<WireFrame>, end: Conn, decode: Decoder)
    requires Fold(c, a, decode) == Next(c') && Fold(c', b, decode) == Next(end)
    ensures Fold(c, a + b, decode) == Next(end)
  {
    FoldAppend(c, a, b, decode);
  }

  lemma {:induction false} FoldScripts(c: Conn, scripts: seq<Script>, decode: Decoder) returns (end: Conn)
    requires c.open && c.payload == None && Wellformed(scripts, decode)
    ensures Fold(c, AllFrames(scripts), decode) == Next(end)
    ensures end == c.(payloadType := end.payloadType, log := c.log + Expected(scripts, decode))
    decreases |scripts|
  {
    if scripts == [] {
      assert c.log + [] == c.log;
      end := c;
    } else {
      var s, tail := scripts[0], scripts[1..];
      assert Good(s, decode);
      var heard := PartAnswers(s.parts) + [Delivered(Decoded(s, decode).value)];
      FoldScript(c, s, decode);
      var c' := c.(payloadType := if s.text then TEXT else BINARY, log := c.log + heard);
      AppendAssociates(c.log, PartAnswers(s.parts), [Delivered(Decoded(s, decode).value)]);
      end := FoldScripts(c', tail, decode);
      assert Expected(scripts, decode) == heard + Expected(tail, decode);
      AppendAssociates(c.log, heard, Expected(tail, decode));
      FoldTwo(c, ScriptFrames(s), c', AllFrames(tail), end, decode);
    }
  }

  // -------------------------------------------------------------- main theorem

  lemma {:induction false} SendableParts(opcode: byte, parts: seq<Part>)
    requires Small(parts) && opcode < 16
    ensures forall i :: 0 <= i < |PartFrames(opcode, parts)| ==> Sendable(PartFrames(opcode, parts)[i])
    decreases |parts|
  {
    if parts != [] {
      SendableControls(parts[0].controls);
      SendableParts(CONTINUATION, parts[1..]);
    }
  }

  lemma {:induction false} SendableControls(cs: seq<Control>)
    requires forall i :: 0 <= i < |cs| ==> |cs[i].data| <= MAX_PAYLOAD
    ensures forall i :: 0 <= i < |ControlFrames(cs)| ==> Sendable(ControlFrames(cs)[i])
    decreases |cs|
  {
    if cs != [] {
      SendableControls(cs[1..]);
    }
  }

  lemma {:induction false} SendableScripts(scripts: seq<Script>, decode: Decoder)
    requires Wellformed(scripts, decode)
    ensures forall i :: 0 <= i < |AllFrames(scripts)| ==> Sendable(AllFrames(scripts)[i])
    decreases |scripts|
  {
    if scripts != [] {
      assert Good(scripts[0], decode);
      SendableParts(if scripts[0].text then TEXT else BINARY, scripts[0].parts);
      SendableScripts(scripts[1..], decode);
    }
  }

  /** For every list of messages, every choice of masking keys and every cut of the byte stream into
      chunks, the connection delivers exactly those messages in order, answers every ping in place,
      and is left waiting for the next frame. */
  lemma Delivery(scripts: seq<Script>, keys: seq<seq<byte>>, chunks: seq<seq<byte>>, decode: Decoder)
    requires Wellformed(scripts, decode)
    requires |keys| == |AllFrames(scripts)| && forall i :: 0 <= i < |keys| ==> |keys[i]| == 4
    requires Flatten(chunks) == Stream(AllFrames(scripts), keys)
    ensures var end := ReceiveAll(Opened(), chunks, decode);
            && end.open && end.frame == Fresh && end.buffer == [] && end.payload == None
            && end.log == Expected(scripts, decode)
  {
    var c := Opened();
    var stream := Stream(AllFrames(scripts), keys);
    SplitIndependence(c, chunks, decode);
    var end := FoldScripts(c, scripts, decode);
    SendableScripts(scripts, decode);
    if AllFrames(scripts) != [] {
      DrainStream(c, AllFrames(scripts), keys, decode);
      assert |ClientFrame(AllFrames(scripts)[0], keys[0])| > 0;
      assert c.buffer + stream == stream && c.(buffer := []) == c;
    }
  }

  /** Before the first close the split does not matter; after it, it does: frames that arrived in
      the same chunk as a close frame are still processed. */
  lemma CloseDependsOnSplit(decode: Decoder)
    ensures var close := ClientFrame(WireFrame(true, CLOSE, []), [0, 0, 0, 0]);
            var data := ClientFrame(WireFrame(true, BINARY, []), [0, 0, 0, 0]);
            && ReceiveAll(Opened(), [close, data], decode).log == [Closed(NO_STATUS)]
            && ReceiveAll(Opened(), [close + data], decode).log == [Closed(NO_STATUS), Delivered(Binary([]))]
  {
    var c := Opened();
    var key: seq<byte> := [0, 0, 0, 0];
    var frames := [WireFrame(true, CLOSE, []), WireFrame(true, BINARY, [])];
    var close, data := ClientFrame(frames[0], key), ClientFrame(frames[1], key);
    assert c.(buffer := []) == c && [] + close == close && [] + (close + data) == close + data;
    var c1 := Process(c, frames[0], decode).conn;
    assert c1 == c.(open := false, log := [Closed(NO_STATUS)]);
    var c2 := Process(c1, frames[1], decode).conn;
    assert c2.log == [Closed(NO_STATUS), Delivered(Binary([]))];
    assert frames[1..] == [frames[1]] && frames[1..][1..] == [];
    assert Fold(c1, [frames[1]], decode) == Fold(c2, [], decode);
    assert Fold(c, frames, decode) == Next(c2);
    assert [frames[0]][1..] == [];
    assert Fold(c, [frames[0]], decode) == Fold(c1, [], decode) == Next(c1);
    DrainStream(c, frames, [key, key], decode);
    DrainStream(c, [frames[0]], [key], decode);
    assert Stream([frames[0]], [key]) == close + [] == close;
    assert [key, key][1..] == [key];
    assert Stream([frames[1]], [key]) == data + [] == data;
    assert Stream(frames, [key, key]) == close + data;
    assert Receive(c, close, decode) == Seal(c1);
    assert [close, data][1..] == [data] && [data][1..] == [];
    assert ReceiveAll(c, [close, data], decode) == ReceiveAll(Seal(c1), [data], decode) == Seal(c1);
    assert ReceiveAll(c, [close + data], decode) == Receive(c, close + data, decode);
  }
}
