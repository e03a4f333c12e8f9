/** The scanner of multipart bodies, which searches for the delimiter (section 5.1.1 of RFC 2046). */
module HttpMultipart {
  import opened Basics
  import opened Buffers

  const CR: byte := 13
  const LF: byte := 10
  const DASH: byte := 45
  const BREAK: seq<byte> := [CR, LF, CR, LF]

  // ----------------------------------------------------------------- searching

  predicate Occurs(what: seq<byte>, s: seq<byte>, at: nat) {
    at + |what| <= |s| && s[at..at + |what|] == what
  }

  /** `indexOf`: the first place at or after `from`. */
  function IndexOf(s: seq<byte>, what: seq<byte>, from: nat): (r: Option<nat>)
    ensures r == None ==> forall i :: from <= i ==> !Occurs(what, s, i)
    ensures r.Some? ==> from <= r.value && Occurs(what, s, r.value) && forall i :: from <= i < r.value ==> !Occurs(what, s, i)
    decreases |s| - from
  {
    if from + |what| > |s| then None
    else if s[from..from + |what|] == what then Some(from)
    else IndexOf(s, what, from + 1)
  }

  lemma IndexOfIs(s: seq<byte>, what: seq<byte>, from: nat, at: nat)
    requires from <= at && Occurs(what, s, at) && forall i :: from <= i < at ==> !Occurs(what, s, i)
    ensures IndexOf(s, what, from) == Some(at)
  {
  }

  // ------------------------------------------------------------------ scanning

  /** A part as it is handed on: its header lines and its body. */
  datatype Part = Part(header: seq<byte>, body: seq<byte>)

  /** How the scan ended: at the last boundary, or with an exception. */
  datatype Ending = Complete | NoHeaderBreak | BadRange

  datatype Scan = Scan(parts: seq<Part>, ending: Ending)

  function Opening(boundary: seq<byte>): seq<byte> {
    [DASH, DASH] + boundary
  }

  function Delimiter(boundary: seq<byte>): seq<byte> {
    [CR, LF, DASH, DASH] + boundary
  }

  /** The loop after the first boundary: `index` is behind the boundary found last. */
  function ScanParts(buffer: seq<byte>, boundary: seq<byte>, index: nat): Scan
    decreases |buffer| - index
  {
    var delimiter := Delimiter(boundary);
    match IndexOf(buffer, delimiter, index)
    case None => Scan([], Complete)
    case Some(end) =>
      match IndexOf(buffer, BREAK, index)
      case None => Scan([], NoHeaderBreak)
      case Some(headerBreak) =>
        if headerBreak + 4 > end then Scan([], BadRange)
        else
          var rest := ScanParts(buffer, boundary, end + |delimiter|);
          Scan([Part(buffer[index..headerBreak], buffer[headerBreak + 4..end])] + rest.parts, rest.ending)
  }

  /** `_parseMultipartBuffer` */
  function ScanBuffer(buffer: seq<byte>, boundary: seq<byte>): Scan {
    match IndexOf(buffer, Opening(boundary), 0)
    case None => Scan([], Complete)
    case Some(at) => ScanParts(buffer, boundary, at + |Opening(boundary)|)
  }

  // ------------------------------------------------------------------- writing

  // Here the bytes are numerals: 13 and 10 end a line, 45 is the dash.

  function Content(p: Part): seq<byte> {
    p.header + [13, 10, 13, 10] + p.body
  }

  /** The parts, each followed by the delimiter, and then what closes the body. */
  function Written(parts: seq<Part>, boundary: seq<byte>, close: seq<byte>): seq<byte> {
    if parts == [] then close else Content(parts[0]) + ([13, 10, 45, 45] + boundary) + Written(parts[1..], boundary, close)
  }

  function WriteBuffer(parts: seq<Part>, boundary: seq<byte>, preamble: seq<byte>, close: seq<byte>): seq<byte> {
    preamble + ([45, 45] + boundary) + Written(parts, boundary, close)
  }

  ghost predicate Absent(what: seq<byte>, s: seq<byte>) {
    forall i :: !Occurs(what, s, i)
  }

  predicate EndsLine(s: seq<byte>) {
    |s| >= 2 && s[|s| - 2] == 13 && s[|s| - 1] == 10
  }

  /** The header holds no empty line, and the delimiter is nowhere in the part. */
  ghost predicate PartOk(p: Part, boundary: seq<byte>) {
    Absent([13, 10, 13, 10], p.header) && !EndsLine(p.header) && Absent([13, 10, 45, 45] + boundary, Content(p))
  }

  /** Boundaries are printable (section 5.1.1). */
  predicate BoundaryOk(boundary: seq<byte>) {
    13 !in boundary && 10 !in boundary
  }

  /** Nothing, or lines in which the opening boundary does not occur. */
  ghost predicate PreambleOk(preamble: seq<byte>, boundary: seq<byte>) {
    preamble == [] || (EndsLine(preamble) && Absent([45, 45] + boundary, preamble))
  }

  // ------------------------------------------------------------------- reading

  /** Nothing that begins in `s` matches across its end, when what follows begins with a byte that the
      searched text has only at its beginning. */
  lemma NoneAcross(s: seq<byte>, what: seq<byte>, rest: seq<byte>, i: nat)
    requires what != [] && (forall k :: 0 < k < |what| ==> what[k] != what[0])
    requires Absent(what, s) && i < |s|
    ensures !Occurs(what, s + what + rest, i)
  {
    var t := s + what + rest;
    if i + |what| <= |s| {
      assert t[i..i + |what|] == s[i..i + |what|];
      assert !Occurs(what, s, i);
    } else if i + |what| <= |t| {
      var k := |s| - i;
      assert t[i..i + |what|][k] == t[|s|] == what[0];
      assert what[k] != what[0];
    }
  }

  lemma FoundAfter(s: seq<byte>, what: seq<byte>, rest: seq<byte>)
    ensures Occurs(what, s + what + rest, |s|)
  {
  }

  /** Nor when `s` ends with a byte that the searched text does not have. */
  lemma NoneFromLine(s: seq<byte>, what: seq<byte>, rest: seq<byte>, i: nat)
    requires s != [] && s[|s| - 1] !in what && Absent(what, s) && i < |s|
    ensures !Occurs(what, s + rest, i)
  {
    var t := s + rest;
    if i + |what| <= |s| {
      assert t[i..i + |what|] == s[i..i + |what|];
      assert !Occurs(what, s, i);
    } else if i + |what| <= |t| {
      assert t[i..i + |what|][|s| - 1 - i] == s[|s| - 1];
    }
  }

  /** The header break is found right behind the header. */
  lemma NoBreakInHeader(header: seq<byte>, rest: seq<byte>, i: nat)
    requires Absent(BREAK, header) && !EndsLine(header) && i < |header|
    ensures !Occurs(BREAK, header + BREAK + rest, i)
  {
    var t := header + BREAK + rest;
    if i + 4 <= |header| {
      assert t[i..i + 4] == header[i..i + 4];
      assert !Occurs(BREAK, header, i);
    } else {
      var k := |header| - i;
      assert t[|header|] == CR;
      assert t[i..i + 4][k] == t[|header|];
      if k == 2 {
        assert t[i..i + 4][0] == header[|header| - 2] && t[i..i + 4][1] == header[|header| - 1];
      }
    }
  }

  /** Searching from `index` is searching the rest of the buffer. */
  lemma Shifted(buffer: seq<byte>, what: seq<byte>, index: nat, i: nat)
    requires index <= |buffer|
    ensures Occurs(what, buffer, index + i) <==> Occurs(what, buffer[index..], i)
  {
    if index + i + |what| <= |buffer| {
      assert buffer[index + i..index + i + |what|] == buffer[index..][i..i + |what|];
    }
  }

  lemma FoundAt(buffer: seq<byte>, what: seq<byte>, index: nat, at: nat)
    requires index <= |buffer| && Occurs(what, buffer[index..], at)
    requires forall i :: 0 <= i < at ==> !Occurs(what, buffer[index..], i)
    ensures IndexOf(buffer, what, index) == Some(index + at)
  {
    Shifted(buffer, what, index, at);
    forall i | index <= i < index + at ensures !Occurs(what, buffer, i) {
      Shifted(buffer, what, index, i - index);
    }
    IndexOfIs(buffer, what, index, index + at);
  }

  lemma NotFound(buffer: seq<byte>, what: seq<byte>, index: nat)
    requires index <= |buffer| && Absent(what, buffer[index..])
    ensures IndexOf(buffer, what, index) == None
  {
    forall i | index <= i ensures !Occurs(what, buffer, i) {
      Shifted(buffer, what, index, i - index);
    }
  }

  lemma DelimiterBytes(boundary: seq<byte>)
    requires BoundaryOk(boundary)
    ensures var d := Delimiter(boundary); d[0] == CR && forall k :: 0 < k < |d| ==> d[k] != d[0]
    ensures LF !in Opening(boundary)
    ensures Delimiter(boundary) == [13, 10, 45, 45] + boundary && Opening(boundary) == [45, 45] + boundary
  {
  }

  /** Where the scanner finds the end and the header break of a part. */
  lemma PartFound(buffer: seq<byte>, boundary: seq<byte>, index: nat, p: Part, after: seq<byte>)
    requires BoundaryOk(boundary) && PartOk(p, boundary)
    requires index <= |buffer| && buffer[index..] == Content(p) + Delimiter(boundary) + after
    ensures IndexOf(buffer, Delimiter(boundary), index) == Some(index + |Content(p)|)
    ensures IndexOf(buffer, BREAK, index) == Some(index + |p.header|)
  {
    DelimiterBytes(boundary);
    AppendAssociates(Content(p), Delimiter(boundary), after);
    hide Delimiter;
    hide IndexOf;
    DelimiterFound(buffer, index, Content(p), Delimiter(boundary), after);
    BreakFound(buffer, index, p.header, p.body, Delimiter(boundary) + after);
  }

  lemma DelimiterFound(buffer: seq<byte>, index: nat, content: seq<byte>, delimiter: seq<byte>, after: seq<byte>)
    requires delimiter != [] && (forall k :: 0 < k < |delimiter| ==> delimiter[k] != delimiter[0])
    requires Absent(delimiter, content) && index <= |buffer| && buffer[index..] == content + delimiter + after
    ensures IndexOf(buffer, delimiter, index) == Some(index + |content|)
  {
    hide IndexOf;
    forall i | 0 <= i < |content| ensures !Occurs(delimiter, buffer[index..], i) {
      NoneAcross(content, delimiter, after, i);
    }
    FoundAfter(content, delimiter, after);
    hide Occurs;
    FoundAt(buffer, delimiter, index, |content|);
  }

  lemma BreakFound(buffer: seq<byte>, index: nat, header: seq<byte>, body: seq<byte>, rest: seq<byte>)
    requires Absent(BREAK, header) && !EndsLine(header)
    requires index <= |buffer| && buffer[index..] == header + BREAK + body + rest
    ensures IndexOf(buffer, BREAK, index) == Some(index + |header|)
  {
    hide IndexOf;
    AppendAssociates(header + BREAK, body, rest);
    forall i | 0 <= i < |header| ensures !Occurs(BREAK, buffer[index..], i) {
      NoBreakInHeader(header, body + rest, i);
    }
    FoundAfter(header, BREAK, body + rest);
    hide Occurs;
    FoundAt(buffer, BREAK, index, |header|);
  }

  lemma PartCut(buffer: seq<byte>, boundary: seq<byte>, index: nat, p: Part, after: seq<byte>)
    requires index <= |buffer| && buffer[index..] == Content(p) + Delimiter(boundary) + after
    ensures var end := index + |Content(p)|; var at := index + |p.header|;
            && at + 4 <= end && end + |Delimiter(boundary)| <= |buffer|
            && buffer[index..at] == p.header && buffer[at + 4..end] == p.body && buffer[end + |Delimiter(boundary)|..] == after
  {
    var text := buffer[index..];
    var end, at := index + |Content(p)|, index + |p.header|;
    assert buffer[index..at] == text[..|p.header|];
    assert buffer[at + 4..end] == text[|p.header| + 4..|Content(p)|];
    assert buffer[end + |Delimiter(boundary)|..] == text[|Content(p)| + |Delimiter(boundary)|..];
  }

  lemma WrittenCons(parts: seq<Part>, boundary: seq<byte>, close: seq<byte>)
    requires parts != []
    ensures Written(parts, boundary, close)
         == Content(parts[0]) + ([13, 10, 45, 45] + boundary) + Written(parts[1..], boundary, close)
  {
    hide Content;
  }

  lemma {:induction false} PartsRead(buffer: seq<byte>, boundary: seq<byte>, index: nat, parts: seq<Part>, close: seq<byte>)
    requires BoundaryOk(boundary) && (forall p <- parts :: PartOk(p, boundary)) && Absent(Delimiter(boundary), close)
    requires index <= |buffer| && buffer[index..] == Written(parts, boundary, close)
    ensures ScanParts(buffer, boundary, index) == Scan(parts, Complete)
    decreases |parts|
  {
    hide *;
    DelimiterBytes(boundary);
    ScanTurn(buffer, boundary, index);
    if parts == [] {
      WrittenNone(boundary, close);
      NotFound(buffer, Delimiter(boundary), index);
    } else {
      var p, after := parts[0], Written(parts[1..], boundary, close);
      assert p in parts;
      WrittenCons(parts, boundary, close);
      PartFound(buffer, boundary, index, p, after);
      PartCut(buffer, boundary, index, p, after);
      PartsRead(buffer, boundary, index + |Content(p)| + |Delimiter(boundary)|, parts[1..], close);
      MoveFirst(parts);
    }
  }

  lemma WrittenNone(boundary: seq<byte>, close: seq<byte>)
    ensures Written([], boundary, close) == close
  {
  }

  lemma MoveFirst(parts: seq<Part>)
    requires parts != []
    ensures [parts[0]] + parts[1..] == parts
  {
  }

  /** The scanner hands on exactly the parts that were written, in order. */
  lemma ScanInvertsWrite(parts: seq<Part>, boundary: seq<byte>, preamble: seq<byte>, close: seq<byte>)
    requires BoundaryOk(boundary) && PreambleOk(preamble, boundary)
    requires (forall p <- parts :: PartOk(p, boundary)) && Absent(Delimiter(boundary), close)
    ensures ScanBuffer(WriteBuffer(parts, boundary, preamble, close), boundary) == Scan(parts, Complete)
  {
    var opening, written := Opening(boundary), Written(parts, boundary, close);
    DelimiterBytes(boundary);
    OpeningFound(preamble, opening, written);
    hide Opening;
    hide Delimiter;
    hide Occurs;
    hide IndexOf;
    hide ScanBuffer;
    hide Written;
    BehindPrefix(preamble, opening, written);
    ScanFrom(preamble + opening + written, boundary, |preamble|, parts, close);
  }

  /** A part without a header break ends the scan, with one exception or another as there is such a break
      somewhere behind it or not. */
  lemma NoBreakInPart(buffer: seq<byte>, boundary: seq<byte>, index: nat, content: seq<byte>, after: seq<byte>)
    requires BoundaryOk(boundary) && Absent([13, 10, 13, 10], content) && Absent([13, 10, 45, 45] + boundary, content)
    requires index <= |buffer| && buffer[index..] == content + ([13, 10, 45, 45] + boundary) + after
    ensures ScanParts(buffer, boundary, index)
         == Scan([], if Absent([13, 10, 13, 10], buffer[index..]) then NoHeaderBreak else BadRange)
  {
    DelimiterBytes(boundary);
    DelimiterFound(buffer, index, content, Delimiter(boundary), after);
    ScanTurn(buffer, boundary, index);
    hide Delimiter;
    hide IndexOf;
    if Absent(BREAK, buffer[index..]) {
      NotFound(buffer, BREAK, index);
    } else {
      var i :| Occurs(BREAK, buffer[index..], i);
      BreakBehind(buffer, index, content, i);
    }
  }

  lemma BreakBehind(buffer: seq<byte>, index: nat, content: seq<byte>, i: nat)
    requires index + |content| <= |buffer| && buffer[index..index + |content|] == content && Absent(BREAK, content)
    requires Occurs(BREAK, buffer[index..], i)
    ensures IndexOf(buffer, BREAK, index).Some? && IndexOf(buffer, BREAK, index).value + 4 > index + |content|
  {
    Shifted(buffer, BREAK, index, i);
    var at := IndexOf(buffer, BREAK, index).value;
    if at + 4 <= index + |content| {
      BreakInside(buffer, index, content, at);
    }
  }

  lemma BreakInside(buffer: seq<byte>, index: nat, content: seq<byte>, at: nat)
    requires index + |content| <= |buffer| && buffer[index..index + |content|] == content
    requires index <= at && at + 4 <= index + |content| && Occurs(BREAK, buffer, at)
    ensures Occurs(BREAK, content, at - index)
  {
    var k := at - index;
    assert forall j :: 0 <= j < |content| ==> content[j] == buffer[index..index + |content|][j] == buffer[index + j];
    assert content[k..k + 4] == buffer[at..at + 4];
  }

  lemma ScanFrom(buffer: seq<byte>, boundary: seq<byte>, at: nat, parts: seq<Part>, close: seq<byte>)
    requires BoundaryOk(boundary) && (forall p <- parts :: PartOk(p, boundary)) && Absent(Delimiter(boundary), close)
    requires IndexOf(buffer, Opening(boundary), 0) == Some(at)
    requires at + |Opening(boundary)| <= |buffer| && buffer[at + |Opening(boundary)|..] == Written(parts, boundary, close)
    ensures ScanBuffer(buffer, boundary) == Scan(parts, Complete)
  {
    hide Opening;
    hide PartOk;
    hide Absent;
    PartsRead(buffer, boundary, at + |Opening(boundary)|, parts, close);
  }

  lemma OpeningFound(preamble: seq<byte>, opening: seq<byte>, written: seq<byte>)
    requires preamble == [] || (EndsLine(preamble) && Absent(opening, preamble) && LF !in opening)
    ensures IndexOf(preamble + opening + written, opening, 0) == Some(|preamble|)
  {
    hide IndexOf;
    AppendAssociates(preamble, opening, written);
    var buffer := preamble + opening + written;
    forall i | 0 <= i < |preamble| ensures !Occurs(opening, buffer, i) {
      NoneFromLine(preamble, opening, opening + written, i);
    }
    FoundAfter(preamble, opening, written);
    IndexOfIs(buffer, opening, 0, |preamble|);
  }

  lemma BehindPrefix(a: seq<byte>, b: seq<byte>, c: seq<byte>)
    ensures (a + b + c)[|a| + |b|..] == c
  {
  }

  // --------------------------------------------------------------- the methods

  /** `Buffer.indexOf`: minus one when there is no such place. */
  method FindIndex(buffer: array<byte>, what: seq<byte>, start: nat) returns (index: int)
    ensures index >= -1
    ensures IndexOf(buffer[..], what, start) == if index == -1 then None else Some(index)
  {
    hide IndexOf;
    index := start;
    while index + |what| <= buffer.Length
      invariant start <= index && forall i :: start <= i < index ==> !Occurs(what, buffer[..], i)
    {
      var ok := true;
      var i := 0;
      while i < |what|
        invariant i <= |what| && buffer[index..index + i] == what[..i]
      {
        if what[i] != buffer[index + i] {
          ok := false;
          break;
        }
        i := i + 1;
      }
      assert ok ==> what[..i] == what;
      assert buffer[..][index..index + |what|] == buffer[index..index + |what|];
      assert !ok ==> buffer[index..index + |what|][i] != what[i];
      if ok {
        IndexOfIs(buffer[..], what, start, index);
        return;
      }
      index := index + 1;
    }
    index := -1;
  }

  /** The loop of `_parseMultipartBuffer`, with the parts it hands on in order. */
  method ParseMultipart(buffer: array<byte>, name: seq<byte>) returns (parts: seq<Part>, ending: Ending)
    ensures Scan(parts, ending) == ScanBuffer(buffer[..], name)
  {
    hide IndexOf;
    hide ScanParts;
    var boundary1, boundary2 := Opening(name), Delimiter(name);
    ghost var bytes := buffer[..];
    ghost var goal := ScanBuffer(bytes, name);
    var index1, done := 0, false;
    parts, ending := [], Complete;
    while !done
      invariant 0 <= index1 && (index1 == 0 ==> parts == [])
      invariant ending == Complete && (done ==> goal == Scan(parts, Complete))
      invariant !done && index1 > 0 ==> index1 <= |bytes| && goal == Then(parts, ScanParts(bytes, name, index1))
      decreases !done, buffer.Length - index1
    {
      var boundary := if index1 != 0 then boundary2 else boundary1;
      var index2 := FindIndex(buffer, boundary, index1);
      if index1 != 0 {
        ScanTurn(bytes, name, index1);
      }
      if index2 == -1 {
        ThenNothing(parts);
        done := true;
      } else {
        if index1 != 0 {
          var headerBreak := FindIndex(buffer, BREAK, index1);
          if headerBreak == -1 {
            ThenNothing(parts);
            return parts, NoHeaderBreak;
          }
          if headerBreak + 4 > index2 {
            ThenNothing(parts);
            return parts, BadRange;
          }
          var part := PartBetween(buffer, index1, headerBreak, index2);
          ThenMore(parts, part, ScanParts(bytes, name, index2 + |boundary2|));
          parts := parts + [part];
        } else {
          ThenNothing(parts);
        }
        index1 := index2 + |boundary|;
      }
    }
  }

  /** The views of a part's header and body. */
  method PartBetween(buffer: array<byte>, index1: nat, headerBreak: nat, index2: nat) returns (part: Part)
    requires index1 <= headerBreak && headerBreak + 4 <= index2 <= buffer.Length
    ensures part == Part(buffer[..][index1..headerBreak], buffer[..][headerBreak + 4..index2])
  {
    part := Part(buffer[index1..headerBreak], buffer[headerBreak + 4..index2]);
    assert part.header == buffer[..][index1..headerBreak];
    assert part.body == buffer[..][headerBreak + 4..index2];
  }

  ghost function Then(parts: seq<Part>, rest: Scan): Scan {
    Scan(parts + rest.parts, rest.ending)
  }

  lemma ThenNothing(parts: seq<Part>)
    ensures forall ending :: Then(parts, Scan([], ending)) == Scan(parts, ending)
    ensures forall rest :: Then([], rest) == rest
  {
  }

  lemma ThenMore(parts: seq<Part>, p: Part, rest: Scan)
    ensures Then(parts, Scan([p] + rest.parts, rest.ending)) == Then(parts + [p], rest)
  {
    AppendAssociates(parts, [p], rest.parts);
  }

  lemma ScanTurn(buffer: seq<byte>, boundary: seq<byte>, index: nat)
    ensures var end, headerBreak := IndexOf(buffer, Delimiter(boundary), index), IndexOf(buffer, BREAK, index);
            ScanParts(buffer, boundary, index) ==
            if end == None then Scan([], Complete)
            else if headerBreak == None then Scan([], NoHeaderBreak)
            else if headerBreak.value + 4 > end.value then Scan([], BadRange)
            else
              var rest := ScanParts(buffer, boundary, end.value + |Delimiter(boundary)|);
              Scan([Part(buffer[index..headerBreak.value], buffer[headerBreak.value + 4..end.value])] + rest.parts, rest.ending)
  {
    hide IndexOf;
  }
}
