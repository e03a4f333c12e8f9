/** The parser's loops as functions of the remaining source. Strings are sequences of characters;
    `last` is the character read last. The state between two tokens is the path of open elements, the
    document at its bottom, and the source that is left; an element stands in its parent once its end
    tag has been read. The parser throws one of a few errors: at the end of the source, for a bad
    entity, a wrong end tag, a misplaced declaration, or anything else. */
module DomParser {
  import opened Basics
  import opened DomTree
  import opened Characters

  datatype Error = Generic | Eof | Entity | Close | Xml | Doctype

  // -------------------------------------------------------------- characters

  predicate NameChar(c: char) {
    'a' <= c <= 'z' || 'A' <= c <= 'Z' || '0' <= c <= '9' || c == '_' || c == ':' || c == '-'
  }

  predicate AllName(s: string) {
    forall i :: 0 <= i < |s| ==> NameChar(s[i])
  }

  predicate IsLineEnd(c: char) {
    var n := c as nat;
    n == 0x0A || n == 0x0D || n == 0x2028 || n == 0x2029
  }

  function Upper(c: char): char {
    if 'a' <= c <= 'z' then c - 'a' + 'A' else c
  }

  function UpperCase(s: string): (r: string)
    ensures |r| == |s|
  {
    seq(|s|, i requires 0 <= i < |s| => Upper(s[i]))
  }

  // ------------------------------------------------------------------ entities

  /** A match of `&(#(x)?)?([0-9a-z]+)(.)` at the start of the string. */
  datatype EntityMatch = EntityMatch(hash: bool, hex: bool, name: string, end: char, length: nat)

  function AlnumRun(s: string, from: nat): (n: nat)
    requires from <= |s|
    ensures from + n <= |s| && forall i :: from <= i < from + n ==> IsAlnum(s[i])
    ensures from + n < |s| ==> !IsAlnum(s[from + n])
    decreases |s| - from
  {
    if from < |s| && IsAlnum(s[from]) then 1 + AlnumRun(s, from + 1) else 0
  }

  /** The greedy run from `from`, giving one character back when nothing else can match the dot. */
  function MatchRun(s: string, from: nat, hash: bool, hex: bool): (r: Option<EntityMatch>)
    requires from <= |s|
    ensures r.Some? ==> from < r.value.length <= |s|
  {
    var n := AlnumRun(s, from);
    if n > 0 && from + n < |s| && !IsLineEnd(s[from + n]) then
      Some(EntityMatch(hash, hex, s[from..from + n], s[from + n], from + n + 1))
    else if n > 1 then
      Some(EntityMatch(hash, hex, s[from..from + n - 1], s[from + n - 1], from + n))
    else None
  }

  function MatchEntity(s: string): (r: Option<EntityMatch>)
    requires s != "" && s[0] == '&'
    ensures r.Some? ==> 0 < r.value.length <= |s|
  {
    if |s| > 1 && s[1] == '#' then
      if |s| > 2 && (s[2] == 'x' || s[2] == 'X') && MatchRun(s, 3, true, true).Some? then
        MatchRun(s, 3, true, true)
      else MatchRun(s, 2, true, false)
    else MatchRun(s, 1, false, false)
  }

  /** The value of the leading digits as `parseInt` reads them; no digit counts as 0 here. */
  function ParseDigits(s: string, radix: nat, sofar: nat): nat {
    if s == "" || DigitValue(s[0]) >= radix then sofar
    else ParseDigits(s[1..], radix, sofar * radix + DigitValue(s[0]))
  }

  function NumericEntity(m: EntityMatch): char {
    var digits := if m.hex && |m.name| > 1 && m.name[0] == '0' && m.name[1] in "xX" then m.name[2..] else m.name;
    var code := ParseDigits(digits, if m.hex then 16 else 10, 0) % 0x1_0000;
    if 0xD800 <= code < 0xE000 then 0xFFFD as char else code as char
  }

  function NamedEntity(name: string): Option<char> {
    if name == "lt" then Some('<')
    else if name == "gt" then Some('>')
    else if name == "quot" then Some('"')
    else if name == "apos" then Some('\'')
    else if name == "amp" then Some('&')
    else None
  }

  function EntityValue(m: EntityMatch): Option<char> {
    if m.end != ';' then None
    else if m.hash then Some(NumericEntity(m))
    else NamedEntity(m.name)
  }

  /** What the first characters of a string stand for (None for a bad entity), and how many. */
  datatype Unit = Unit(value: Option<char>, length: nat)

  function FirstUnit(s: string): (u: Unit)
    requires s != ""
    ensures 0 < u.length <= |s|
  {
    var m := if s[0] == '&' then MatchEntity(s) else None;
    match m
    case None => Unit(Some(s[0]), 1)
    case Some(e) => Unit(EntityValue(e), e.length)
  }

  /** `_unescapeEntities`: every match replaced, or None for a bad one. */
  function Unescape(s: string): Option<string>
    decreases |s|
  {
    if s == "" then Some("")
    else
      var u := FirstUnit(s);
      if u.value == None then None else Prepend(u.value.value, Unescape(s[u.length..]))
  }

  function Prepend(c: char, s: Option<string>): Option<string> {
    match s
    case None => None
    case Some(t) => Some([c] + t)
  }

  // -------------------------------------------------------------------- tokens

  /** A piece of the source, the last character read, and the source after it. */
  datatype Token = Token(text: string, last: char, rest: string)

  function EndsWith(s: string, end: string): bool {
    |s| >= |end| && s[|s| - |end|..] == end
  }

  /** `_parseUntil`, having read `str`. */
  function ParseUntil(str: string, s: string, end: string): (r: Result<Token, Error>)
    requires end != ""
    ensures r.Success? ==> |r.value.rest| < |s|
    decreases |s|
  {
    if s == "" then Failure(Eof)
    else
      var str' := str + [s[0]];
      if s[0] == end[|end| - 1] && EndsWith(str', end) then
        Success(Token(str'[..|str'| - |end|], s[0], s[1..]))
      else ParseUntil(str', s[1..], end)
  }

  /** `_parseNodeName`, having read `str`: the name, which is one invalid character when it starts
      with one, and the character that ended it. */
  function ParseNodeName(str: string, s: string): (r: Result<Token, Error>)
    ensures r.Success? ==> |r.value.rest| <= |s| && r.value.text != ""
    ensures r.Success? && str == "" ==> |r.value.rest| < |s|
    decreases |s|
  {
    if str != "" && !AllName(str) then
      Success(Token(if |str| > 1 then str[..|str| - 1] else str, str[|str| - 1], s))
    else if s == "" then Failure(Eof)
    else ParseNodeName(str + [s[0]], s[1..])
  }

  /** `_parseWhitespace`: the first other character. */
  function ParseWhitespace(s: string): (r: Result<Token, Error>)
    ensures r.Success? ==> |r.value.rest| < |s|
  {
    if s == "" then Failure(Eof)
    else if IsSpace(s[0]) then ParseWhitespace(s[1..])
    else Success(Token("", s[0], s[1..]))
  }

  function ParseQuoted(separator: char, s: string): (r: Result<Token, Error>)
    ensures r.Success? ==> |r.value.rest| < |s|
  {
    if separator != '\'' && separator != '"' then Failure(Generic) else ParseUntil("", s, [separator])
  }

  // ---------------------------------------------------------------------- tags

  /** An element that is still open, or the document itself at the bottom of the path. */
  datatype Open = Open(name: string, attributes: seq<Attr>, childNodes: seq<Node>)

  /** The path and the source left. */
  datatype Progress = Progress(path: seq<Open>, rest: string)

  function AppendTop(path: seq<Open>, n: Node): (r: seq<Open>)
    requires path != []
    ensures |r| == |path|
  {
    var top := |path| - 1;
    path[top := path[top].(childNodes := path[top].childNodes + [n])]
  }

  /** Pops the top element, which then stands complete in its parent. */
  function Pop(path: seq<Open>): (r: seq<Open>)
    requires |path| > 1
    ensures |r| == |path| - 1
  {
    var top := path[|path| - 1];
    AppendTop(path[..|path| - 1], Element(top.name, top.attributes, top.childNodes))
  }

  /** `setAttributeNode`: replaces an attribute of the same name in place. */
  function SetAttribute(attributes: seq<Attr>, a: Attr): seq<Attr> {
    if attributes == [] then [a]
    else if attributes[0].name == a.name then [a] + attributes[1..]
    else [attributes[0]] + SetAttribute(attributes[1..], a)
  }

  function SetTopAttribute(path: seq<Open>, a: Attr): (r: seq<Open>)
    requires path != []
    ensures |r| == |path|
  {
    var top := |path| - 1;
    path[top := path[top].(attributes := SetAttribute(path[top].attributes, a))]
  }

  /** The character `=` after an attribute name, with or without white space before it. */
  function ParseEquals(last: char, s: string): (r: Result<string, Error>)
    ensures r.Success? ==> |r.value| <= |s|
  {
    if last == '=' then Success(s)
    else if !IsSpace(last) then Failure(Generic)
    else
      match ParseWhitespace(s)
      case Failure(e) => Failure(e)
      case Success(t) => if t.last == '=' then Success(t.rest) else Failure(Generic)
  }

  function ParseAttribute(ch: char, p: Progress): (r: Result<Progress, Error>)
    requires p.path != []
    ensures r.Success? ==> |r.value.rest| < |p.rest| && |r.value.path| == |p.path|
  {
    match ParseNodeName([ch], p.rest)
    case Failure(e) => Failure(e)
    case Success(name) =>
      match ParseEquals(name.last, name.rest)
      case Failure(e) => Failure(e)
      case Success(rest) => ParseValue(p.path, name.text, rest)
  }

  /** The quoted value of an attribute whose name and `=` have been read. */
  function ParseValue(path: seq<Open>, name: string, s: string): (r: Result<Progress, Error>)
    requires path != []
    ensures r.Success? ==> |r.value.rest| < |s| && |r.value.path| == |path|
  {
    match ParseWhitespace(s)
    case Failure(e) => Failure(e)
    case Success(separator) =>
      match ParseQuoted(separator.last, separator.rest)
      case Failure(e) => Failure(e)
      case Success(quoted) =>
        match Unescape(quoted.text)
        case None => Failure(Entity)
        case Some(value) => Success(Progress(SetTopAttribute(path, Attr(name, value)), quoted.rest))
  }

  function ParseAutoclose(p: Progress): (r: Result<Progress, Error>)
    requires |p.path| > 1
    ensures r.Success? ==> |r.value.rest| < |p.rest| && |r.value.path| > 0
  {
    if p.rest == "" || p.rest[0] != '>' then Failure(Generic) else Success(Progress(Pop(p.path), p.rest[1..]))
  }

  /** The attribute loop of `_parseElement`, up to the end of the tag. */
  function ParseAttributes(p: Progress): (r: Result<Progress, Error>)
    requires |p.path| > 1
    ensures r.Success? ==> |r.value.rest| < |p.rest| && |r.value.path| > 0
    decreases |p.rest|
  {
    match ParseWhitespace(p.rest)
    case Failure(e) => Failure(e)
    case Success(t) =>
      if t.last == '>' then Success(p.(rest := t.rest))
      else if t.last == '/' then ParseAutoclose(p.(rest := t.rest))
      else
        match ParseAttribute(t.last, p.(rest := t.rest))
        case Failure(e) => Failure(e)
        case Success(p') => ParseAttributes(p')
  }

  function ParseElement(ch: char, p: Progress): (r: Result<Progress, Error>)
    requires p.path != []
    ensures r.Success? ==> |r.value.rest| <= |p.rest| && |r.value.path| > 0
  {
    match ParseNodeName([ch], p.rest)
    case Failure(e) => Failure(e)
    case Success(name) =>
      var p' := Progress(p.path + [Open(name.text, [], [])], name.rest);
      if name.last == '>' then Success(p')
      else if name.last == '/' then ParseAutoclose(p')
      else ParseAttributes(p')
  }

  function ParseElementEnd(p: Progress): (r: Result<Progress, Error>)
    requires p.path != []
    ensures r.Success? ==> |r.value.rest| < |p.rest| && |r.value.path| > 0
  {
    match ParseWhitespace(p.rest)
    case Failure(e) => Failure(e)
    case Success(t) =>
      match ParseNodeName([t.last], t.rest)
      case Failure(e) => Failure(e)
      case Success(name) => CloseElement(p.path, name)
  }

  /** The end of the top element's tag, whose name has been read. */
  function CloseElement(path: seq<Open>, name: Token): (r: Result<Progress, Error>)
    requires path != []
    ensures r.Success? ==> |r.value.rest| <= |name.rest| && |r.value.path| > 0
  {
    if |path| == 1 || path[|path| - 1].name != name.text then Failure(Close)
    else if name.last == '>' then Success(Progress(Pop(path), name.rest))
    else
      match ParseUntil("", name.rest, ">")
      case Failure(e) => Failure(e)
      case Success(u) => Success(Progress(Pop(path), u.rest))
  }

  function ParseInstruction(p: Progress): (r: Result<Progress, Error>)
    requires p.path != []
    ensures r.Success? ==> |r.value.rest| < |p.rest| && |r.value.path| > 0
  {
    match ParseNodeName("", p.rest)
    case Failure(e) => Failure(e)
    case Success(name) =>
      match ParseUntil("", name.rest, "?>")
      case Failure(e) => Failure(e)
      case Success(data) =>
        if UpperCase(name.text) == "XML" then
          if |p.path| == 1 then Success(p.(rest := data.rest)) else Failure(Xml)
        else Success(Progress(AppendTop(p.path, Instruction(name.text, data.text)), data.rest))
  }

  /** A comment or CDATA section whose opening has been read. */
  function ParseData(p: Progress, end: string): (r: Result<Progress, Error>)
    requires p.path != [] && end in {"-->", "]]>"}
    ensures r.Success? ==> |r.value.rest| < |p.rest| && |r.value.path| > 0
  {
    match ParseUntil("", p.rest, end)
    case Failure(e) => Failure(e)
    case Success(t) =>
      var n := if end == "-->" then Comment(t.text) else CData(t.text);
      Success(Progress(AppendTop(p.path, n), t.rest))
  }

  /** `_getChars`: up to `n` characters. */
  function Chars(s: string, n: nat): string {
    s[..Min(n, |s|)]
  }

  /** `_parseNode`, after the opening `<`. */
  function ParseNode(p: Progress): (r: Result<Progress, Error>)
    requires p.path != []
    ensures r.Success? ==> |r.value.rest| < |p.rest| && |r.value.path| > 0
  {
    if p.rest == "" then Failure(Eof)
    else
      var ch, rest := p.rest[0], p.rest[1..];
      if ch == '!' then
        var two := Chars(rest, 2);
        var rest2 := rest[|two|..];
        if two == "--" then ParseData(p.(rest := rest2), "-->")
        else
          var five := Chars(rest2, 5);
          if UpperCase(two) == "[C" && UpperCase(five) == "DATA[" then ParseData(p.(rest := rest2[|five|..]), "]]>")
          else if UpperCase(two) == "DO" && UpperCase(five) == "CTYPE" then Failure(Doctype)
          else Failure(Generic)
      else if ch == '?' then ParseInstruction(p.(rest := rest))
      else if ch == '/' then ParseElementEnd(p.(rest := rest))
      else ParseElement(ch, p.(rest := rest))
  }

  /** Text that has been collected becomes a text node, except at document level. */
  function Flush(path: seq<Open>, buffer: string): (r: Result<seq<Open>, Error>)
    requires path != []
    ensures r.Success? ==> |r.value| == |path|
  {
    if buffer == "" then Success(path)
    else
      match Unescape(buffer)
      case None => Failure(Entity)
      case Some(data) => Success(if |path| == 1 then path else AppendTop(path, Text(data)))
  }

  /** `_parseChildNodes`: the main loop, having collected `buffer`. */
  function ParseChildNodes(p: Progress, buffer: string): Result<seq<Open>, Error>
    requires p.path != []
    decreases |p.rest|
  {
    if p.rest == "" then Flush(p.path, buffer)
    else if p.rest[0] == '<' then
      match Flush(p.path, buffer)
      case Failure(e) => Failure(e)
      case Success(path) =>
        match ParseNode(Progress(path, p.rest[1..]))
        case Failure(e) => Failure(e)
        case Success(p') => ParseChildNodes(p', "")
    else ParseChildNodes(p.(rest := p.rest[1..]), buffer + [p.rest[0]])
  }

  const DOCUMENT := Open("#document", [], [])

  /** `parseFromString`, as the children of the resulting document. */
  function Parse(source: string): Result<seq<Node>, Error> {
    match ParseChildNodes(Progress([DOCUMENT], source), "")
    case Failure(e) => Failure(e)
    case Success(path) => if |path| == 1 then Success(path[0].childNodes) else Failure(Eof)
  }
}
