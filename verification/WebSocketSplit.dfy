/** For which streams it matters how they are cut. */
module WebSocketSplit {
  import opened Basics
  import opened Buffers
  import opened Numbers
  import opened WebSocketFrame
  import opened WebSocketConnection
  import opened WebSocketDelivery

  // Frames that arrive in the same chunk as a close are still handled; those that arrive later are not.

  /** Every cut of the stream leads to the same events. */
  ghost predicate SplitFree(c: Conn, s: seq<byte>, decode: Decoder) {
    forall chunks :: Flatten(chunks) == s ==> ReceiveAll(c, chunks, decode).log == Receive(c, s, decode).log
  }

  // ------------------------------------------------------------- byte by byte

  function Bytewise(s: seq<byte>): seq<seq<byte>> {
    if s == [] then [] else [[s[0]]] + Bytewise(s[1..])
  }

  lemma {:induction false} BytewiseIs(s: seq<byte>)
    ensures Flatten(Bytewise(s)) == s
  {
    if s != [] {
      BytewiseIs(s[1..]);
      assert Bytewise(s)[1..] == Bytewise(s[1..]);
    }
  }

  /** The byte that completes a frame is its last. */
  lemma {:induction false} DoneWithLast(progress: Progress, d: seq<byte>, x: byte)
    requires Parse(progress, d).Pending? && Parse(progress, d + [x]).Done?
    ensures Parse(progress, d + [x]).rest == []
    decreases Stage(progress)
  {
    match progress
    case Fresh =>
      if |d| >= 2 {
        assert (d + [x])[2..] == d[2..] + [x];
        DoneWithLast(AfterHeader(d[0], d[1]), d[2..], x);
      }
    case WaitLength(fin, opcode, wide) =>
      var n := if wide then 8 else 2;
      if |d| >= n {
        assert (d + [x])[..n] == d[..n] && (d + [x])[n..] == d[n..] + [x];
        assert wide ==> (d + [x])[..4] == d[..4];
        DoneWithLast(WaitPayload(fin, opcode, BigEndian(d[..n])), d[n..], x);
      }
    case WaitPayload(_, _, _) =>
  }

  /** What handling one frame adds to the log: nothing when it raises an exception. */
  lemma ProcessAdds(c: Conn, f: WireFrame, decode: Decoder)
    ensures var step := Process(c, f, decode);
            && (step.Threw? ==> step.conn.log == c.log && step.conn.open == c.open)
            && (step.Next? && c.open && !step.conn.open ==>
                  exists code :: step.conn.log == c.log + [Closed(code)])
  {
  }

  lemma {:induction false} UpToLast(log: seq<Event>, code: nat)
    requires !HasClose(log)
    ensures UpToClose(log + [Closed(code)]) == log + [Closed(code)] && UpToClose(log) == log
  {
    if log != [] {
      assert (log + [Closed(code)])[1..] == log[1..] + [Closed(code)];
      assert forall i :: 0 <= i < |log| - 1 ==> log[1..][i] == log[i + 1];
      UpToLast(log[1..], code);
    }
  }

  /** When a single byte closes the connection, the close is the last event. */
  lemma ByteCloses(c: Conn, x: byte, decode: Decoder)
    requires Idle(c) && c.open && !Receive(c, [x], decode).open
    ensures UpToClose(Receive(c, [x], decode).log) == Receive(c, [x], decode).log
  {
    hide Parse;
    hide Process;
    var base := c.(buffer := [], frame := Fresh);
    var o := Parse(c.frame, c.buffer + [x]);
    ParseConsumes(c.frame, c.buffer + [x]);
    assert Receive(c, [x], decode) == Seal(After(base, o, decode));
    if o.Done? {
      DoneWithLast(c.frame, c.buffer, x);
      ProcessAdds(base, o.frame, decode);
      var step := Process(base, o.frame, decode);
      if step.Threw? {
        UpToLast(c.log, if step.code == 0 then NO_STATUS else step.code);
      } else {
        var code :| step.conn.log == c.log + [Closed(code)];
        UpToLast(c.log, code);
      }
    } else if o.Rejected? {
      UpToLast(c.log, if o.code == 0 then NO_STATUS else o.code);
    }
  }

  lemma {:induction false} ClosedStays(c: Conn, chunks: seq<seq<byte>>, decode: Decoder)
    requires !c.open
    ensures ReceiveAll(c, chunks, decode) == c
    decreases |chunks|
  {
    if chunks != [] {
      ClosedStays(c, chunks[1..], decode);
    }
  }

  /** Byte by byte, nothing follows the close. */
  lemma {:induction false} BytewiseCloses(c: Conn, s: seq<byte>, decode: Decoder)
    requires Idle(c) && c.open
    ensures UpToClose(ReceiveAll(c, Bytewise(s), decode).log) == ReceiveAll(c, Bytewise(s), decode).log
    decreases |s|
  {
    if s == [] {
      UpToLast(c.log, 0);
    } else {
      var d := Receive(c, [s[0]], decode);
      ReceiveStaysIdle(c, [s[0]], decode);
      assert Bytewise(s)[0] == [s[0]] && Bytewise(s)[1..] == Bytewise(s[1..]);
      hide Receive;
      assert ReceiveAll(c, Bytewise(s), decode) == ReceiveAll(d, Bytewise(s[1..]), decode);
      if d.open {
        BytewiseCloses(d, s[1..], decode);
      } else {
        ByteCloses(c, s[0], decode);
        ClosedStays(d, Bytewise(s[1..]), decode);
      }
    }
  }

  // ---------------------------------------------------------------- any cut

  /** What has happened after a part of the data is the beginning of what happens. */
  lemma {:induction false} DrainPrefix(c: Conn, a: seq<byte>, b: seq<byte>, decode: Decoder)
    ensures Drain(c, a, decode).log <= Drain(c, a + b, decode).log
    decreases |a|
  {
    ParseConsumes(c.frame, a);
    ParseResumes(c.frame, a, b);
    var o, base := Parse(c.frame, a), c.(frame := Fresh);
    if o.Pending? {
      DrainGrows(c, a + b, decode);
    } else if o.Done? {
      var step := Process(base, o.frame, decode);
      if step.Next? {
        if o.rest == [] {
          assert o.rest + b == b;
          DrainGrows(step.conn, b, decode);
        } else {
          DrainPrefix(step.conn, o.rest, b, decode);
        }
      }
    }
  }

  /** As long as the connection is open, two notifications are one. */
  lemma ReceiveOn(c: Conn, a: seq<byte>, b: seq<byte>, decode: Decoder)
    requires Idle(c) && Receive(c, a, decode).open
    ensures Receive(Receive(c, a, decode), b, decode) == Receive(c, a + b, decode)
  {
    if c.open {
      if a == [] || b == [] {
        assert a + b == if a == [] then b else a;
      } else {
        assert c.buffer + (a + b) == c.buffer + a + b;
        DrainSplit(c.(buffer := []), c.buffer + a, b, decode);
      }
    }
  }

  lemma {:induction false} ReceivePrefix(c: Conn, chunks: seq<seq<byte>>, decode: Decoder)
    requires Idle(c)
    ensures ReceiveAll(c, chunks, decode).log <= Receive(c, Flatten(chunks), decode).log
    decreases |chunks|
  {
    if chunks != [] {
      var a, rest := chunks[0], Flatten(chunks[1..]);
      var d := Receive(c, a, decode);
      ReceiveStaysIdle(c, a, decode);
      if d.open {
        ReceiveOn(c, a, rest, decode);
        ReceivePrefix(d, chunks[1..], decode);
      } else {
        ClosedStays(d, chunks[1..], decode);
        if c.open {
          assert c.buffer + (a + rest) == c.buffer + a + rest;
          DrainPrefix(c.(buffer := []), c.buffer + a, rest, decode);
        }
      }
    }
  }

  lemma {:induction false} UpToCloseBegins(log: seq<Event>)
    ensures UpToClose(log) <= log
  {
    if log != [] {
      UpToCloseBegins(log[1..]);
    }
  }

  /** The cut of a stream does not matter if and only if, received at once, nothing follows its first close. */
  lemma SplitFreeIff(c: Conn, s: seq<byte>, decode: Decoder)
    requires Idle(c) && c.open
    ensures SplitFree(c, s, decode) <==> UpToClose(Receive(c, s, decode).log) == Receive(c, s, decode).log
  {
    var log := Receive(c, s, decode).log;
    hide Receive;
    hide ReceiveAll;
    hide Idle;
    if SplitFree(c, s, decode) {
      BytewiseIs(s);
      BytewiseCloses(c, s, decode);
    }
    if UpToClose(log) == log {
      forall chunks | Flatten(chunks) == s ensures ReceiveAll(c, chunks, decode).log == log {
        SplitIndependence(c, chunks, decode);
        ReceivePrefix(c, chunks, decode);
        UpToCloseBegins(ReceiveAll(c, chunks, decode).log);
      }
    }
  }

  // ------------------------------------------------------------ whole frames

  predicate Completes(f: WireFrame) {
    f.fin && f.opcode in {CONTINUATION, TEXT, BINARY}
  }

  /** On a closed connection: no frame completes a message before the first that raises an exception. */
  predicate QuietAfter(c: Conn, frames: seq<WireFrame>, decode: Decoder)
    decreases |frames|
  {
    frames == [] || Process(c, frames[0], decode).Threw?
    || (!Completes(frames[0]) && QuietAfter(Process(c, frames[0], decode).conn, frames[1..], decode))
  }

  /** Between the first closing frame and the first that raises an exception, no frame completes a message. */
  predicate Quiet(c: Conn, frames: seq<WireFrame>, decode: Decoder)
    decreases |frames|
  {
    if !c.open then QuietAfter(c, frames, decode)
    else frames == [] || Process(c, frames[0], decode).Threw? || Quiet(Process(c, frames[0], decode).conn, frames[1..], decode)
  }

  lemma {:induction false} HandleGrows(c: Conn, frames: seq<WireFrame>, decode: Decoder)
    ensures c.log <= Handle(c, frames, decode).log
    decreases |frames|
  {
    hide Handle;
    HandleTurn(c, frames, decode);
    if frames != [] {
      ProcessGrows(c, frames[0], decode);
      var step := Process(c, frames[0], decode);
      if step.Next? {
        HandleGrows(step.conn, frames[1..], decode);
      }
    }
  }

  lemma ProcessClosed(c: Conn, f: WireFrame, decode: Decoder)
    requires !c.open && Process(c, f, decode).Next?
    ensures var c' := Process(c, f, decode).conn;
            !c'.open && if Completes(f) then |c'.log| > |c.log| else c'.log == c.log
  {
  }

  lemma {:induction false} HandleClosed(c: Conn, frames: seq<WireFrame>, decode: Decoder)
    requires !c.open
    ensures Handle(c, frames, decode).log == c.log <==> QuietAfter(c, frames, decode)
    decreases |frames|
  {
    hide Handle;
    HandleTurn(c, frames, decode);
    if frames != [] {
      ProcessAdds(c, frames[0], decode);
      var step := Process(c, frames[0], decode);
      if step.Next? {
        ProcessClosed(c, frames[0], decode);
        HandleClosed(step.conn, frames[1..], decode);
        HandleGrows(step.conn, frames[1..], decode);
        hide Process;
      }
    }
  }

  lemma {:induction false} HandleQuietIff(c: Conn, frames: seq<WireFrame>, decode: Decoder)
    requires OpenMatchesLog(c) && UpToClose(c.log) == c.log
    ensures UpToClose(Handle(c, frames, decode).log) == Handle(c, frames, decode).log <==> Quiet(c, frames, decode)
    decreases |frames|
  {
    hide Handle;
    HandleTurn(c, frames, decode);
    if !c.open {
      HandleClosed(c, frames, decode);
      HandleGrows(c, frames, decode);
      var log := Handle(c, frames, decode).log;
      UpToCloseExtends(c.log, log[|c.log|..]);
      assert log == c.log + log[|c.log|..];
    } else if frames != [] {
      ProcessAdds(c, frames[0], decode);
      ProcessGrows(c, frames[0], decode);
      var step := Process(c, frames[0], decode);
      if step.Threw? {
        UpToLast(c.log, if step.code == 0 then NO_STATUS else step.code);
      } else {
        if step.conn.open {
          UpToLast(step.conn.log, 0);
        } else {
          var code :| step.conn.log == c.log + [Closed(code)];
          UpToLast(c.log, code);
        }
        hide Process;
        HandleQuietIff(step.conn, frames[1..], decode);
      }
    }
  }

  /** For complete frames, the cut does not matter if and only if no message is completed between the
      first close and the first exception. */
  lemma FramesSplitFreeIff(c: Conn, frames: seq<WireFrame>, keys: seq<seq<byte>>, decode: Decoder)
    requires OpenMatchesLog(c) && c.open && c.frame == Fresh && c.buffer == [] && Valid(frames, keys)
    ensures SplitFree(c, Stream(frames, keys), decode) <==> Quiet(c, frames, decode)
  {
    var s := Stream(frames, keys);
    UpToLast(c.log, 0);
    SplitFreeIff(c, s, decode);
    HandleQuietIff(c, frames, decode);
    assert c.(buffer := []) == c && c.buffer + s == s;
    if frames != [] {
      DrainStream(c, frames, keys, decode);
      assert |ClientFrame(frames[0], keys[0])| > 0;
    }
  }
}
