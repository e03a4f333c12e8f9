/** The decoder of the chunked transfer coding, into a buffer that doubles when it is full (section 7.1 of RFC 9112). */
module HttpChunked {
  import opened Basics
  import opened Buffers
  import opened Characters

  // The result grows in a buffer that is doubled until a chunk fits; what is copied runs on past the chunk,
  // and is overwritten by the next.

  const CR: byte := 13
  const LF: byte := 10

  // ------------------------------------------------------------ the chunk size

  function HexDigit(b: byte): Option<nat> {
    if 48 <= b <= 57 then Some((b - 48) as nat)
    else if 65 <= b <= 70 then Some((b - 55) as nat)
    else if 97 <= b <= 102 then Some((b - 87) as nat)
    else None
  }

  function HexRun(s: seq<byte>): (n: nat)
    ensures n <= |s| && (n < |s| ==> HexDigit(s[n]) == None)
    ensures forall i :: 0 <= i < n ==> HexDigit(s[i]).Some?
  {
    if s == [] || HexDigit(s[0]) == None then 0 else 1 + HexRun(s[1..])
  }

  /** The value of a hexadecimal numeral. */
  function HexValue(s: seq<byte>): nat
    requires forall b <- s :: HexDigit(b).Some?
  {
    if s == [] then 0 else 16 * HexValue(s[..|s| - 1]) + HexDigit(s[|s| - 1]).value
  }

  /** Bytes that `parseInt` skips as white space. */
  function SkipSpace(s: seq<byte>): (r: seq<byte>)
    ensures |r| <= |s|
  {
    if s != [] && (9 <= s[0] <= 13 || s[0] == 32 || s[0] == 160) then SkipSpace(s[1..]) else s
  }

  function Digits(s: seq<byte>): (r: seq<byte>)
    ensures forall b <- r :: HexDigit(b).Some?
  {
    var t := if |s| >= 2 && s[0] == 48 && (s[1] == 120 || s[1] == 88) then s[2..] else s;
    t[..HexRun(t)]
  }

  /** `parseInt(s, 16)`, none when it is not a number. */
  function ParseHex(s: seq<byte>): Option<int> {
    var t := SkipSpace(s);
    var negative := t != [] && t[0] == 45;
    var digits := Digits(if t != [] && (t[0] == 45 || t[0] == 43) then t[1..] else t);
    var value: int := HexValue(digits);
    if digits == [] then None else Some(if negative then -value else value)
  }

  // ---------------------------------------------------------------- decoding

  /** How decoding ends: with a body, with an exception because its length has become negative, or never. */
  datatype Decoded = Body(bytes: seq<byte>) | BadLength | Endless

  /** Where the line that begins at `index` ends: at a carriage return or at the end. */
  function LineEnd(body: seq<byte>, index: nat): (e: nat)
    requires index <= |body|
    ensures index <= e <= |body| && (e < |body| ==> body[e] == CR)
    ensures forall i :: index <= i < e ==> body[i] != CR
    decreases |body| - index
  {
    if index == |body| || body[index] == CR then index else LineEnd(body, index + 1)
  }

  /** `length` doubled until it is at least `need`. */
  function Doubled(length: nat, need: nat): (n: nat)
    requires length > 0
    ensures n >= need && n >= length
    decreases need - length
  {
    if length >= need then length else Doubled(2 * length, need)
  }

  /** The result buffer with room for `need` bytes. */
  function Room(result: seq<byte>, need: int): (r: seq<byte>)
    ensures |r| >= need && |r| >= |result| && r[..|result|] == result
  {
    if need <= |result| then result
    else Copied(Zeros(Doubled(if result == [] then 1 else |result|, need)), result, 0, 0)
  }

  /** `copyFrom` at an offset, which is taken for the end when it is negative. */
  function CopiedAt(target: seq<byte>, body: seq<byte>, at: nat, actual: int): (r: seq<byte>)
    ensures |r| == |target|
  {
    Copied(target, body, at, if actual < 0 then |target| else actual)
  }

  /** The result cut to its actual length. */
  function Finish(result: seq<byte>, actual: int): Decoded {
    if actual < 0 then BadLength else Body(Copied(Zeros(actual), result, 0, 0))
  }

  /** The size announced at an index, none where the loop stops: at the last chunk, at what is no size, and
      before the beginning, where a line begins with characters that no number begins with. */
  function SizeAt(body: seq<byte>, index: int): (size: Option<int>)
    requires index < |body|
    ensures size.Some? ==> size.value != 0 && index >= 0
  {
    if index < 0 then None
    else
      var size := ParseHex(body[index..LineEnd(body, index)]);
      if size == Some(0) then None else size
  }

  function UpTo(n: nat): (r: set<int>)
    ensures forall i :: i in r <==> 0 <= i < n
  {
    if n == 0 then {} else UpTo(n - 1) + {n - 1}
  }

  /** The positions of a body. */
  function Positions(body: seq<byte>): set<int> {
    UpTo(|body|)
  }

  /** A negative size takes the decoder back; `left` are the positions at which no turn has begun yet. */
  function Decode(body: seq<byte>, index: int, result: seq<byte>, actual: int, left: set<int>): Decoded
    requires actual <= |result|
    decreases left
  {
    if index >= |body| || SizeAt(body, index) == None then Finish(result, actual)
    else if index !in left then Endless
    else
      var at, size := LineEnd(body, index) + 2, SizeAt(body, index).value;
      Decode(body, at + size + 2, CopiedAt(Room(result, actual + size), body, at, actual), actual + size, left - {index})
  }

  lemma DecodeTurn(body: seq<byte>, index: nat, result: seq<byte>, actual: int, left: set<int>)
    requires actual <= |result| && index < |body| && SizeAt(body, index).Some? && index in left
    ensures var at, size := LineEnd(body, index) + 2, SizeAt(body, index).value;
            Decode(body, index, result, actual, left) ==
            Decode(body, at + size + 2, CopiedAt(Room(result, actual + size), body, at, actual), actual + size, left - {index})
  {
    hide CopiedAt;
    hide Room;
    hide SizeAt;
    hide LineEnd;
  }

  lemma DecodeStops(body: seq<byte>, index: int, result: seq<byte>, actual: int, left: set<int>)
    requires actual <= |result| && (index >= |body| || SizeAt(body, index) == None)
    ensures Decode(body, index, result, actual, left) == Finish(result, actual)
  {
    hide Finish;
    hide SizeAt;
  }

  lemma DecodeEndless(body: seq<byte>, index: int, result: seq<byte>, actual: int, left: set<int>)
    requires actual <= |result| && index < |body| && SizeAt(body, index).Some? && index !in left
    ensures Decode(body, index, result, actual, left) == Endless
  {
    hide SizeAt;
  }

  // ------------------------------------------------------------ when it ends

  /** Where the next turn begins, none if this is the last. */
  function Next(body: seq<byte>, index: int): Option<int> {
    if index >= |body| then None
    else
      var size := SizeAt(body, index);
      if size == None then None else Some(LineEnd(body, index) + 2 + size.value + 2)
  }

  /** Where the k-th turn begins, if there is one. */
  function Turn(body: seq<byte>, k: nat): Option<int> {
    if k == 0 then Some(0)
    else
      var i := Turn(body, k - 1);
      if i == None then None else Next(body, i.value)
  }

  /** There is no last turn. */
  ghost predicate Forever(body: seq<byte>) {
    forall k: nat :: Turn(body, k).Some?
  }

  /** Some turn begins where an earlier one did. */
  ghost predicate ComesBack(body: seq<byte>) {
    exists i: nat, j: nat :: i < j && Turn(body, i) == Turn(body, j) && Turn(body, j).Some?
  }

  /** A turn that begins where an earlier one did goes on as that one did. */
  lemma {:induction false} TurnsRepeat(body: seq<byte>, i: nat, j: nat, k: nat)
    requires i <= j && Turn(body, i) == Turn(body, j)
    ensures Turn(body, i + k) == Turn(body, j + k)
    decreases k
  {
    hide Next;
    if k > 0 {
      TurnsRepeat(body, i, j, k - 1);
    }
  }

  lemma {:induction false} TurnsGoOn(body: seq<byte>, i: nat, j: nat, k: nat)
    requires i < j && Turn(body, i) == Turn(body, j) && Turn(body, j).Some?
    ensures Turn(body, k).Some?
    decreases k
  {
    hide Turn;
    if k <= j {
      TurnsBefore(body, k, j);
    } else {
      TurnsRepeat(body, i, j, k - j);
      TurnsGoOn(body, i, j, i + (k - j));
    }
  }

  lemma {:induction false} TurnsBefore(body: seq<byte>, k: nat, j: nat)
    requires k <= j && Turn(body, j).Some?
    ensures Turn(body, k).Some?
    decreases j
  {
    hide Next;
    if k < j {
      TurnsBefore(body, k, j - 1);
    }
  }

  /** The positions at which none of the first `j` turns began. */
  ghost predicate Visited(body: seq<byte>, j: nat, left: set<int>) {
    forall p :: 0 <= p < |body| && p !in left ==> exists i: nat :: i < j && Turn(body, i) == Some(p)
  }

  lemma {:induction false} DecodeEndsIff(body: seq<byte>, j: nat, index: int, result: seq<byte>, actual: int, left: set<int>)
    requires actual <= |result| && Turn(body, j) == Some(index) && Visited(body, j, left)
    ensures Decode(body, index, result, actual, left) == Endless <==> Forever(body)
    ensures Decode(body, index, result, actual, left) == Endless ==> ComesBack(body)
    decreases left
  {
    hide *;
    if index >= |body| || SizeAt(body, index) == None {
      DecodeStops(body, index, result, actual, left);
      FinishIs(result, actual);
      NoNextTurn(body, j, index);
    } else if index !in left {
      DecodeEndless(body, index, result, actual, left);
      BackAgain(body, j, index, left);
    } else {
      var at, size := LineEnd(body, index) + 2, SizeAt(body, index).value;
      NextTurn(body, j, index);
      DecodeTurn(body, index, result, actual, left);
      VisitedMore(body, j, index, left);
      DecodeEndsIff(body, j + 1, at + size + 2, CopiedAt(Room(result, actual + size), body, at, actual), actual + size, left - {index});
    }
  }

  lemma FinishIs(result: seq<byte>, actual: int)
    ensures Finish(result, actual) == if actual < 0 then BadLength else Body(Copied(Zeros(actual), result, 0, 0))
  {
  }

  lemma BackAgain(body: seq<byte>, j: nat, index: int, left: set<int>)
    requires Visited(body, j, left) && Turn(body, j) == Some(index) && index !in left
    requires index < |body| && SizeAt(body, index).Some?
    ensures Forever(body) && ComesBack(body)
  {
    hide Turn;
    hide SizeAt;
    var i: nat :| i < j && Turn(body, i) == Some(index);
    forall k: nat ensures Turn(body, k).Some? {
      TurnsGoOn(body, i, j, k);
    }
  }

  lemma NoNextTurn(body: seq<byte>, j: nat, index: int)
    requires Turn(body, j) == Some(index) && (index >= |body| || SizeAt(body, index) == None)
    ensures !Forever(body)
  {
    hide SizeAt;
    assert Turn(body, j + 1) == None;
  }

  lemma NextTurn(body: seq<byte>, j: nat, index: int)
    requires Turn(body, j) == Some(index) && 0 <= index < |body| && SizeAt(body, index).Some?
    ensures Turn(body, j + 1) == Some(LineEnd(body, index) + 2 + SizeAt(body, index).value + 2)
  {
    hide SizeAt;
  }

  lemma VisitedMore(body: seq<byte>, j: nat, index: int, left: set<int>)
    requires Visited(body, j, left) && Turn(body, j) == Some(index)
    ensures Visited(body, j + 1, left - {index})
  {
    hide Turn;
  }

  /** Decoding never ends, there being no last turn of the loop, if and only if some turn begins where an
      earlier one did. */
  lemma EndlessIff(body: seq<byte>)
    ensures Decode(body, 0, [], 0, Positions(body)) == Endless <==> Forever(body)
    ensures Forever(body) <==> ComesBack(body)
  {
    if ComesBack(body) {
      var i: nat, j: nat :| i < j && Turn(body, i) == Turn(body, j) && Turn(body, j).Some?;
      forall k: nat ensures Turn(body, k).Some? {
        TurnsGoOn(body, i, j, k);
      }
    }
    assert Turn(body, 0) == Some(0);
    hide Decode;
    hide Forever;
    DecodeEndsIff(body, 0, 0, [], 0, Positions(body));
  }

  /** The shortest kind of body that is never decoded: minus six, back to the beginning. */
  lemma MinusSix()
    ensures Forever([45, 54, CR, LF])
  {
    var body := [45, 54, CR, LF];
    assert LineEnd(body, 2) == 2 && LineEnd(body, 1) == 2 && LineEnd(body, 0) == 2;
    assert body[0..2] == [45, 54] && [45, 54][1..] == [54];
    assert HexRun([54]) == 1 by { assert [54][1..] == []; }
    assert [54][..1] == [54] && [54][..0] == [];
    assert HexValue([54]) == 6;
    assert ParseHex([45, 54]) == Some(-6);
    assert Next(body, 0) == Some(0);
    forall k: nat ensures Turn(body, k) == Some(0) {
      SameTurn(body, k);
    }
  }

  lemma {:induction false} SameTurn(body: seq<byte>, k: nat)
    requires Next(body, 0) == Some(0)
    ensures Turn(body, k) == Some(0)
  {
    hide Next;
    if k > 0 {
      SameTurn(body, k - 1);
    }
  }

  /** Without a minus sign the turns move on, and decoding gives a body. */
  lemma {:induction false} DecodesWithoutMinus(body: seq<byte>, index: nat, result: seq<byte>, actual: nat, left: set<int>)
    requires 45 !in body && actual <= |result| && forall i :: index <= i < |body| ==> i in left
    ensures Decode(body, index, result, actual, left).Body?
    decreases |body| - index
  {
    hide SizeAt;
    hide CopiedAt;
    hide Room;
    hide Decode;
    if index >= |body| || SizeAt(body, index) == None {
      DecodeStops(body, index, result, actual, left);
    } else {
      var at, size := LineEnd(body, index) + 2, SizeAt(body, index).value;
      NotMinus(body, index);
      DecodeTurn(body, index, result, actual, left);
      DecodesWithoutMinus(body, at + size + 2, CopiedAt(Room(result, actual + size), body, at, actual), actual + size, left - {index});
    }
  }

  lemma NotMinus(body: seq<byte>, index: nat)
    requires 45 !in body && index < |body| && SizeAt(body, index).Some?
    ensures SizeAt(body, index).value > 0
  {
    var line := body[index..LineEnd(body, index)];
    SkippedIn(line);
    var t := SkipSpace(line);
    assert t != [] ==> t[0] in t;
  }

  lemma {:induction false} SkippedIn(s: seq<byte>)
    ensures forall b <- SkipSpace(s) :: b in s
  {
    if s != [] {
      SkippedIn(s[1..]);
    }
  }

  // -------------------------------------------------------------- encoded bodies

  datatype Chunk = Chunk(size: seq<byte>, extension: seq<byte>, data: seq<byte>)

  /** The characters that bytes stand for. */
  function Letters(s: seq<byte>): (r: string)
    ensures |r| == |s| && forall i :: 0 <= i < |s| ==> r[i] == s[i] as int as char
  {
    seq(|s|, i requires 0 <= i < |s| => s[i] as int as char)
  }

  lemma HexDigitIs(b: byte, v: nat)
    requires IsDigitOf(b as int as char, v)
    ensures HexDigit(b) == Some(v)
  {
  }

  /** A hexadecimal numeral has the value that it is written for. */
  lemma {:induction false} NumeralIs(size: seq<byte>, n: nat)
    requires Writes(Letters(size), 16, n)
    ensures size != [] && (forall b <- size :: HexDigit(b).Some?) && HexValue(size) == n
    decreases |size|
  {
    var front, last := size[..|size| - 1], size[|size| - 1];
    assert Letters(size)[..|size| - 1] == Letters(front);
    HexDigitIs(last, n % 16);
    assert size == front + [last];
    if front != [] {
      NumeralIs(front, n / 16);
    }
  }

  /** White space as `parseInt` skips it. */
  ghost predicate AllSpace(s: seq<byte>) {
    forall i :: 0 <= i < |s| ==> 9 <= s[i] <= 13 || s[i] == 32 || s[i] == 160
  }

  ghost predicate NoDigitNext(rest: seq<byte>) {
    rest == [] || rest[0] as int as char !in "0123456789abcdefABCDEF"
  }

  lemma NoDigitIs(rest: seq<byte>)
    ensures NoDigitNext(rest) <==> rest == [] || HexDigit(rest[0]) == None
  {
    if rest != [] {
      var c := rest[0] as int as char;
      assert c in "0123456789" <==> 48 <= rest[0] <= 57;
      assert c in "ABCDEF" <==> 65 <= rest[0] <= 70;
      assert c in "abcdef" <==> 97 <= rest[0] <= 102;
    }
  }

  /** A hexadecimal numeral, perhaps after `0x`, and something that does not continue it. */
  ghost predicate NumeralOk(prefix: seq<byte>, size: seq<byte>, n: nat, rest: seq<byte>) {
    && prefix in [[], [48, 120], [48, 88]] && Writes(Letters(size), 16, n) && NoDigitNext(rest)
    && (prefix == [] && size == [48] && rest != [] ==> rest[0] != 120 && rest[0] != 88)
  }

  /** `parseInt` skips white space, takes a sign and perhaps `0x`, and stops after the digits. */
  lemma NumberRead(space: seq<byte>, sign: seq<byte>, prefix: seq<byte>, size: seq<byte>, n: nat, rest: seq<byte>)
    requires AllSpace(space) && sign in [[], [43], [45]] && NumeralOk(prefix, size, n, rest)
    ensures ParseHex(space + (sign + (prefix + (size + rest)))) == Some((if sign == [45] then -1 else 1) * n)
  {
    var digits := prefix + (size + rest);
    var signed := sign + digits;
    NumeralIs(size, n);
    NoDigitIs(rest);
    DigitsStart(prefix, size, rest);
    DigitsRead(prefix, size, rest);
    hide *;
    SignStarts(sign, digits);
    SpaceSkipped(space, signed);
    SignRead(space + signed, sign, digits, size, n);
  }

  /** Without a digit there it gives no number. */
  lemma NotANumber(space: seq<byte>, sign: seq<byte>, prefix: seq<byte>, rest: seq<byte>)
    requires AllSpace(space) && sign in [[], [43], [45]] && prefix in [[], [48, 120], [48, 88]] && NoDigitNext(rest)
    requires sign == [] && prefix == [] && rest != [] ==>
             rest[0] != 43 && rest[0] != 45 && !(9 <= rest[0] <= 13) && rest[0] != 32 && rest[0] != 160
    ensures ParseHex(space + (sign + (prefix + rest))) == None
  {
    var digits := prefix + rest;
    var signed := sign + digits;
    NoDigitIs(rest);
    SpaceSkipped(space, signed);
    if sign == [] {
      assert signed == digits;
    } else {
      assert signed[0] == sign[0] && signed[1..] == digits;
    }
    if prefix == [] {
      assert digits == rest;
    } else {
      assert digits[0] == 48 && digits[1] == prefix[1] && digits[2..] == rest;
    }
  }

  lemma SignStarts(sign: seq<byte>, digits: seq<byte>)
    requires sign in [[], [43], [45]] && digits != []
    requires digits[0] != 43 && digits[0] != 45 && !(9 <= digits[0] <= 13) && digits[0] != 32 && digits[0] != 160
    ensures var s := sign + digits;
            && s != [] && !(9 <= s[0] <= 13) && s[0] != 32 && s[0] != 160
            && (s[0] == 45 <==> sign == [45]) && (s[0] == 43 <==> sign == [43])
            && (if sign == [] then s == digits else s[1..] == digits)
  {
  }

  lemma SignRead(s: seq<byte>, sign: seq<byte>, digits: seq<byte>, size: seq<byte>, n: nat)
    requires sign in [[], [43], [45]]
    requires var t := SkipSpace(s);
             && t != [] && (t[0] == 45 <==> sign == [45]) && (t[0] == 43 <==> sign == [43])
             && (if sign == [] then t == digits else t[1..] == digits)
    requires Digits(digits) == size && size != [] && (forall b <- size :: HexDigit(b).Some?) && HexValue(size) == n
    ensures ParseHex(s) == Some((if sign == [45] then -1 else 1) * n)
  {
    hide Digits;
    hide SkipSpace;
    hide HexValue;
  }

  lemma DigitsStart(prefix: seq<byte>, size: seq<byte>, rest: seq<byte>)
    requires size != [] && (forall b <- size :: HexDigit(b).Some?) && prefix in [[], [48, 120], [48, 88]]
    ensures var digits := prefix + (size + rest);
            digits != [] && digits[0] != 43 && digits[0] != 45 && !(9 <= digits[0] <= 13) && digits[0] != 32 && digits[0] != 160
  {
    assert size[0] in size;
    assert (prefix + (size + rest))[0] == if prefix == [] then size[0] else prefix[0];
  }

  lemma {:induction false} SpaceSkipped(space: seq<byte>, s: seq<byte>)
    requires AllSpace(space) && (s != [] ==> !(9 <= s[0] <= 13) && s[0] != 32 && s[0] != 160)
    ensures SkipSpace(space + s) == s
  {
    if space == [] {
      assert space + s == s;
    } else {
      assert (space + s)[0] == space[0] && (space + s)[1..] == space[1..] + s;
      SpaceSkipped(space[1..], s);
    }
  }

  lemma DigitsRead(prefix: seq<byte>, size: seq<byte>, rest: seq<byte>)
    requires size != [] && (forall b <- size :: HexDigit(b).Some?) && (rest == [] || HexDigit(rest[0]) == None)
    requires prefix in [[], [48, 120], [48, 88]]
    requires prefix == [] && size == [48] && rest != [] ==> rest[0] != 120 && rest[0] != 88
    ensures Digits(prefix + (size + rest)) == size
  {
    var s := prefix + (size + rest);
    HexRunIs(size, rest);
    assert (size + rest)[..|size|] == size;
    if prefix == [] {
      assert s == size + rest;
      assert size[0] in size && (|size| > 1 ==> size[1] in size);
      assert |s| > 1 ==> s[1] == if |size| > 1 then size[1] else rest[0];
    } else {
      assert s[0] == prefix[0] && s[1] == prefix[1] && s[2..] == size + rest;
    }
  }

  /** The line that announces so many bytes: hexadecimal digits in any case and with any number of
      leading zeros, and perhaps an extension, which begins with a semicolon or white space. */
  ghost predicate LineOk(size: seq<byte>, extension: seq<byte>, length: nat) {
    && Writes(Letters(size), 16, length)
    && (extension == [] || extension[0] == 59 || extension[0] == 32 || extension[0] == 9)
    && 13 !in extension
  }

  ghost predicate ChunkOk(c: Chunk) {
    c.data != [] && LineOk(c.size, c.extension, |c.data|)
  }

  function EncodeChunk(c: Chunk): seq<byte> {
    c.size + c.extension + [13, 10] + c.data + [13, 10]
  }

  /** The chunks, and then whatever ends the body. */
  function Encode(chunks: seq<Chunk>, last: seq<byte>): seq<byte> {
    if chunks == [] then last else EncodeChunk(chunks[0]) + Encode(chunks[1..], last)
  }

  function Data(chunks: seq<Chunk>): seq<byte> {
    if chunks == [] then [] else chunks[0].data + Data(chunks[1..])
  }

  /** How a body ends: with the zero-sized last chunk and any trailer, or by being cut off. */
  ghost predicate LastOk(last: seq<byte>) {
    last == [] || exists size, extension, trailer ::
      LineOk(size, extension, 0) && last == size + extension + [13, 10] + trailer
  }

  lemma {:induction false} HexRunIs(s: seq<byte>, rest: seq<byte>)
    requires (forall b <- s :: HexDigit(b).Some?) && (rest == [] || HexDigit(rest[0]) == None)
    ensures HexRun(s + rest) == |s|
  {
    if s == [] {
      AppendNothing(rest);
    } else {
      assert (s + rest)[0] == s[0] && (s + rest)[1..] == s[1..] + rest;
      HexRunIs(s[1..], rest);
    }
  }

  /** `parseInt` reads the size and stops at the extension. */
  lemma ParseHexLine(size: seq<byte>, extension: seq<byte>, length: nat)
    requires LineOk(size, extension, length)
    ensures ParseHex(size + extension) == Some(length)
  {
    NumberRead([], [], [], size, length, extension);
    AppendNothing(size + extension);
  }

  /** The line ends before its carriage return. */
  lemma {:induction false} LineEndIs(body: seq<byte>, index: nat, line: seq<byte>)
    requires CR !in line && index + |line| < |body| && body[index..index + |line|] == line && body[index + |line|] == CR
    ensures LineEnd(body, index) == index + |line|
  {
    forall i | index <= i < index + |line| ensures body[i] != CR {
      assert body[index..index + |line|][i - index] == line[i - index];
      assert line[i - index] in line;
    }
  }

  /** The copy puts the chunk where it belongs, although it goes on to the end of the buffer. */
  lemma CopiedChunk(target: seq<byte>, body: seq<byte>, at: nat, actual: nat, n: nat)
    requires actual + n <= |target| && at + n <= |body|
    ensures Copied(target, body, at, actual)[..actual + n] == target[..actual] + body[at..at + n]
  {
  }

  lemma CopiedAll(result: seq<byte>, actual: nat)
    requires actual <= |result|
    ensures Copied(Zeros(actual), result, 0, 0) == result[..actual]
  {
  }

  /** A line with its end, wherever it stands. */
  lemma LineRead(body: seq<byte>, index: nat, size: seq<byte>, extension: seq<byte>, length: nat, rest: seq<byte>)
    requires LineOk(size, extension, length) && index <= |body| && body[index..] == size + extension + [CR, LF] + rest
    ensures var end := LineEnd(body, index);
            index <= end && end + 2 <= |body| && ParseHex(body[index..end]) == Some(length) && body[end + 2..] == rest
  {
    hide *;
    var line := size + extension;
    LineHasNoReturn(size, extension, length);
    ParseHexLine(size, extension, length);
    LineStands(body, index, line, rest);
    LineEndIs(body, index, line);
  }

  lemma LineHasNoReturn(size: seq<byte>, extension: seq<byte>, length: nat)
    requires LineOk(size, extension, length)
    ensures CR !in size + extension
  {
    NumeralIs(size, length);
    assert HexDigit(CR) == None;
  }

  lemma LineStands(body: seq<byte>, index: nat, line: seq<byte>, rest: seq<byte>)
    requires index <= |body| && body[index..] == line + [CR, LF] + rest
    ensures var end := index + |line|;
            end + 2 <= |body| && body[end] == CR && body[index..end] == line && body[end + 2..] == rest
  {
    var end := index + |line|;
    var tail := line + [CR, LF] + rest;
    assert body[end] == tail[|line|] == CR;
    assert body[index..end] == tail[..|line|] == line;
    assert body[end + 2..] == tail[|line| + 2..] == rest;
  }

  ghost predicate ChunksOk(chunks: seq<Chunk>) {
    forall c <- chunks :: ChunkOk(c)
  }

  /** No turn has begun from here on. */
  ghost predicate Ahead(body: seq<byte>, index: nat, left: set<int>) {
    forall i :: index <= i < |body| ==> i in left
  }

  lemma {:induction false} DecodeRest(body: seq<byte>, index: nat, result: seq<byte>, actual: nat, left: set<int>, chunks: seq<Chunk>, last: seq<byte>)
    requires ChunksOk(chunks) && LastOk(last) && actual <= |result| && Ahead(body, index, left)
    requires index <= |body| && body[index..] == Encode(chunks, last)
    ensures Decode(body, index, result, actual, left) == Body(result[..actual] + Data(chunks))
    decreases |chunks|
  {
    hide Decode;
    hide ChunkOk;
    hide LastOk;
    if chunks == [] {
      LastRead(body, index, result, actual, left, last);
      AppendNothing(result[..actual]);
    } else {
      var c, after := chunks[0], Encode(chunks[1..], last);
      assert c in chunks;
      var next, copied := ChunkRead(body, index, result, actual, left, c, after);
      DecodeRest(body, next, copied, actual + |c.data|, left - {index}, chunks[1..], last);
      AppendAssociates(result[..actual], c.data, Data(chunks[1..]));
    }
  }

  /** One chunk, in whatever state the loop is. */
  lemma ChunkRead(body: seq<byte>, index: nat, result: seq<byte>, actual: nat, left: set<int>, c: Chunk, after: seq<byte>)
      returns (next: nat, copied: seq<byte>)
    requires ChunkOk(c) && actual <= |result| && index <= |body| && body[index..] == EncodeChunk(c) + after
    requires Ahead(body, index, left)
    ensures index < next <= |body| && body[next..] == after && Ahead(body, next, left - {index})
    ensures actual + |c.data| <= |copied| && copied[..actual + |c.data|] == result[..actual] + c.data
    ensures Decode(body, index, result, actual, left) == Decode(body, next, copied, actual + |c.data|, left - {index})
  {
    hide Copied;
    hide ParseHex;
    hide LineEnd;
    hide Decode;
    hide Room;
    var n := |c.data|;
    EncodeSplits(c, after);
    hide EncodeChunk;
    LineRead(body, index, c.size, c.extension, n, c.data + [CR, LF] + after);
    hide LineOk;
    assert SizeAt(body, index) == Some(n);
    hide SizeAt;
    DecodeTurn(body, index, result, actual, left);
    var at := LineEnd(body, index) + 2;
    DataRead(body, at, c.data, after);
    ChunkCopied(result, body, at, actual, n);
    next, copied := at + n + 2, CopiedAt(Room(result, actual + n), body, at, actual);
  }

  lemma LastRead(body: seq<byte>, index: nat, result: seq<byte>, actual: nat, left: set<int>, last: seq<byte>)
    requires LastOk(last) && actual <= |result| && index <= |body| && body[index..] == last
    ensures Decode(body, index, result, actual, left) == Body(result[..actual])
  {
    CopiedAll(result, actual);
    hide Copied;
    hide ParseHex;
    hide LineEnd;
    if last == [] {
      DecodeStops(body, index, result, actual, left);
    } else {
      var size, extension, trailer :| LineOk(size, extension, 0) && last == size + extension + [CR, LF] + trailer;
      LineRead(body, index, size, extension, 0, trailer);
      DecodeStops(body, index, result, actual, left);
    }
  }

  lemma ChunkCopied(result: seq<byte>, body: seq<byte>, at: nat, actual: nat, n: nat)
    requires actual <= |result| && at + n <= |body|
    ensures Copied(Room(result, actual + n), body, at, actual)[..actual + n] == result[..actual] + body[at..at + n]
  {
    var room := Room(result, actual + n);
    hide Room;
    CopiedChunk(room, body, at, actual, n);
    assert room[..actual] == room[..|result|][..actual];
  }

  lemma EncodeSplits(c: Chunk, after: seq<byte>)
    ensures EncodeChunk(c) + after == c.size + c.extension + [CR, LF] + (c.data + [CR, LF] + after)
  {
  }

  lemma DataRead(body: seq<byte>, at: nat, data: seq<byte>, after: seq<byte>)
    requires at <= |body| && body[at..] == data + [CR, LF] + after
    ensures at + |data| + 2 <= |body| && body[at..at + |data|] == data && body[at + |data| + 2..] == after
  {
    var rest := data + [CR, LF] + after;
    assert body[at..at + |data|] == rest[..|data|];
    assert body[at + |data| + 2..] == rest[|data| + 2..];
  }

  /** Decoding a chunked body gives back the data of its chunks, however they were cut. */
  lemma DecodeEncode(chunks: seq<Chunk>, last: seq<byte>)
    requires ChunksOk(chunks) && LastOk(last)
    ensures var body := Encode(chunks, last); Decode(body, 0, [], 0, Positions(body)) == Body(Data(chunks))
  {
    var body := Encode(chunks, last);
    assert body[0..] == body;
    DecodeRest(body, 0, [], 0, Positions(body), chunks, last);
    AppendNothing(Data(chunks));
  }

  // -------------------------------------------------------------- the method

  /** Reads the line that announces a chunk. */
  method ReadLine(body: array<byte>, from: nat) returns (hex: seq<byte>, index: nat)
    requires from <= body.Length
    ensures index == LineEnd(body[..], from) && hex == body[..][from..index]
  {
    index := from;
    hex := [];
    while index < body.Length
      invariant from <= index <= body.Length && hex == body[from..index]
      invariant forall i :: from <= i < index ==> body[i] != CR
    {
      var num := body[index];
      if num == CR { break; }
      hex := hex + [num];
      index := index + 1;
    }
    LineEndUnique(body[..], from, index);
    assert hex == body[..][from..index];
  }

  /** The result buffer, or a longer copy of it, with room for `need` bytes. */
  method MakeRoom(result: array<byte>, need: int) returns (r: array<byte>)
    ensures r[..] == Room(result[..], need) && (r == result || fresh(r))
  {
    hide Copied;
    if need <= result.Length { return result; }
    var newLength := result.Length;
    if newLength == 0 {
      newLength := 1;
    }
    ghost var first := newLength;
    while newLength < need
      invariant newLength > 0 && Doubled(newLength, need) == Doubled(first, need)
      decreases need - newLength
    {
      newLength := newLength * 2;
    }
    r := NewBuffer(newLength);
    assert r[..] == Zeros(newLength);
    CopyFrom(r, result, 0, 0);
  }

  /** Copies the rest of the body to the end of what has been decoded; nothing if that is negative. */
  method PutChunk(result: array<byte>, body: array<byte>, at: nat, actualLength: int)
    requires result != body
    modifies result
    ensures result[..] == CopiedAt(old(result[..]), body[..], at, actualLength)
  {
    hide Copied;
    CopyFrom(result, body, at, if actualLength < 0 then result.Length else actualLength);
  }

  /** `_parseChunked`. Positions are remembered only to see that the loop is back at one of them, where the
      original goes on for ever. */
  method ParseChunked(body: array<byte>) returns (status: Decoded, decoded: array?<byte>)
    ensures status == Decode(body[..], 0, [], 0, Positions(body[..]))
    ensures status.Body? ==> decoded != null && decoded[..] == status.bytes
  {
    hide Decode;
    hide CopiedAt;
    hide Room;
    hide ParseHex;
    hide LineEnd;
    hide Finish;
    ghost var bytes := body[..];
    ghost var goal := Decode(bytes, 0, [], 0, Positions(bytes));
    var index: int, actualLength: int := 0, 0;
    var left := UpTo(body.Length);
    var result := NewBuffer(0);
    assert result[..] == [] && left == Positions(bytes);
    while index < body.Length
      invariant actualLength <= result.Length && fresh(result) && body[..] == bytes
      invariant goal == Decode(bytes, index, result[..], actualLength, left)
      decreases left
    {
      var size := None;
      var end := 0;
      if index >= 0 {
        var hex;
        hex, end := ReadLine(body, index);
        size := ParseHex(hex);
      }
      if size == None || size == Some(0) {
        DecodeStops(bytes, index, result[..], actualLength, left);
        break;
      }
      assert SizeAt(bytes, index) == size;
      if index !in left {
        DecodeEndless(bytes, index, result[..], actualLength, left);
        return Endless, null;
      }
      DecodeTurn(bytes, index, result[..], actualLength, left);
      var chunkLength := size.value;
      result := MakeRoom(result, actualLength + chunkLength);
      PutChunk(result, body, end + 2, actualLength);
      actualLength := actualLength + chunkLength;
      left := left - {index};
      index := end + 2 + chunkLength + 2;
    }
    if index >= body.Length {
      DecodeStops(bytes, index, result[..], actualLength, left);
    }
    if actualLength < 0 {
      FinishIs(result[..], actualLength);
      return BadLength, null;
    }
    FinishIs(result[..], actualLength);
    decoded := Truncated(result, actualLength);
    status := Body(decoded[..]);
  }

  /** The result cut to its actual length. */
  method Truncated(result: array<byte>, actualLength: nat) returns (temp: array<byte>)
    requires actualLength <= result.Length
    ensures temp[..] == Copied(Zeros(actualLength), result[..], 0, 0)
  {
    hide Copied;
    temp := NewBuffer(actualLength);
    assert temp[..] == Zeros(actualLength);
    CopyFrom(temp, result, 0, 0);
  }

  lemma LineEndUnique(body: seq<byte>, index: nat, e: nat)
    requires index <= e <= |body| && (e < |body| ==> body[e] == CR) && forall i :: index <= i < e ==> body[i] != CR
    ensures LineEnd(body, index) == e
  {
  }
}
